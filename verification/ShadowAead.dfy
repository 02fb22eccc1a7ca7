/** The Shadowsocks AEAD stream (shadowaead/stream.go): length-prefixed chunks,
    each sealed twice under a counting nonce. */
module ShadowAead {
  import opened Bits
  import opened Common
  import opened Wire

  const MAX_CHUNK: nat := 0x3FFF

  // ----- the nonce counter

  /** A little-endian number. */
  function LE(b: bytes): nat {
    if b == [] then 0 else b[0] as nat + 256 * LE(b[1..])
  }

  function Pow256(n: nat): (p: nat)
    ensures p >= 1
  {
    if n == 0 then 1 else 256 * Pow256(n - 1)
  }

  /** One more, carrying from the left. */
  function Inc(b: bytes): (r: bytes)
    ensures |r| == |b|
  {
    if b == [] then []
    else if b[0] != 255 then [(b[0] + 1) as byte] + b[1..]
    else [0] + Inc(b[1..])
  }

  lemma {:induction false} LEBound(b: bytes)
    ensures LE(b) < Pow256(|b|)
  {
    if b != [] { LEBound(b[1..]); }
  }

  /** Inc counts modulo 256^n. */
  lemma {:induction false} IncCounts(b: bytes)
    ensures LE(Inc(b)) == if LE(b) + 1 == Pow256(|b|) then 0 else LE(b) + 1
  {
    if b != [] {
      IncCounts(b[1..]);
      LEBound(b[1..]);
      assert Inc(b)[1..] == if b[0] != 255 then b[1..] else Inc(b[1..]);
    }
  }

  lemma LEHead(a: bytes)
    requires a != []
    ensures LE(a) == a[0] as nat + 256 * LE(a[1..]) && a == [a[0]] + a[1..]
  {
  }

  lemma {:induction false} LEInjective(a: bytes, b: bytes)
    requires |a| == |b| && LE(a) == LE(b)
    ensures a == b
  {
    hide LE;
    if a != [] {
      LEHead(a);
      LEHead(b);
      assert a[0] as nat == b[0] as nat && LE(a[1..]) == LE(b[1..]);
      LEInjective(a[1..], b[1..]);
    }
  }

  function IncBy(b: bytes, k: nat): (r: bytes)
    ensures |r| == |b|
    decreases k
  {
    if k == 0 then b else Inc(IncBy(b, k - 1))
  }

  lemma {:induction false} IncByCounts(b: bytes, k: nat)
    requires LE(b) + k < Pow256(|b|)
    ensures LE(IncBy(b, k)) == LE(b) + k
  {
    if k > 0 {
      IncByCounts(b, k - 1);
      IncCounts(IncBy(b, k - 1));
    }
  }

  /** No nonce repeats before the counter wraps. */
  lemma NoncesDistinct(b: bytes, j: nat, k: nat)
    requires j < k && LE(b) + k < Pow256(|b|)
    ensures IncBy(b, j) != IncBy(b, k)
  {
    IncByCounts(b, j);
    IncByCounts(b, k);
  }

  lemma {:induction false} IncByAdd(b: bytes, j: nat, k: nat)
    ensures IncBy(b, j + k) == IncBy(IncBy(b, j), k)
    decreases k
  {
    if k > 0 { IncByAdd(b, j, k - 1); }
  }

  lemma {:induction false} IncPrefix(a: bytes, k: nat)
    requires k < |a| && a[k] != 255 && forall i :: 0 <= i < k ==> a[i] == 255
    ensures Inc(a) == seq(k, i => 0) + [(a[k] + 1) as byte] + a[k + 1..]
    decreases k
  {
    var zeros: bytes := seq(k, i => 0);
    if k > 0 {
      var rest: bytes := seq(k - 1, i => 0);
      IncPrefix(a[1..], k - 1);
      assert a[1..][k..] == a[k + 1..];
      assert zeros == [0] + rest;
    } else {
      assert zeros == [];
    }
  }

  lemma {:induction false} IncAllOnes(a: bytes)
    requires forall i :: 0 <= i < |a| ==> a[i] == 255
    ensures Inc(a) == seq(|a|, i => 0)
  {
    if a != [] {
      IncAllOnes(a[1..]);
      var zeros: bytes := seq(|a|, i => 0);
      var rest: bytes := seq(|a| - 1, i => 0);
      assert zeros == [0] + rest;
    }
  }

  /** increment, in place on the first n bytes. */
  method Increment(b: array<byte>, n: nat)
    requires n <= b.Length
    modifies b
    ensures b[..n] == Inc(old(b[..n])) && b[n..] == old(b[n..])
  {
    ghost var a := b[..n];
    for i := 0 to n
      invariant forall j :: 0 <= j < i ==> a[j] == 255 && b[j] == 0
      invariant forall j :: i <= j < n ==> b[j] == a[j]
      invariant b[n..] == old(b[n..])
    {
      b[i] := if b[i] == 255 then 0 else b[i] + 1;
      if b[i] != 0 {
        IncPrefix(a, i);
        assert b[..n] == Inc(a);
        return;
      }
    }
    IncAllOnes(a);
    assert b[..n] == Inc(a);
  }

  // ----- sealing

  /** An authenticated cipher under a fixed key. */
  datatype Aead = Aead(seal: (bytes, bytes) -> bytes, open: (bytes, bytes) -> Option<bytes>, overhead: nat, nonceSize: nat)

  /** Open inverts Seal under equal nonces, and Seal adds a tag of fixed size. */
  ghost predicate Correct(a: Aead) {
    && (forall n, p {:trigger a.seal(n, p)} ::
          |a.seal(n, p)| == |p| + a.overhead && a.open(n, a.seal(n, p)) == Some(p))
    && Sized(a)
  }

  /** Open removes the tag. */
  ghost predicate Sized(a: Aead) {
    forall n, c {:trigger a.open(n, c)} :: a.open(n, c).Some? ==> |a.open(n, c).value| + a.overhead == |c|
  }

  /** One chunk on the wire: its sealed length, then its sealed contents. */
  function Frame(a: Aead, nonce: bytes, chunk: bytes): bytes
    requires |chunk| <= MAX_CHUNK
  {
    a.seal(nonce, U16(|chunk|)) + a.seal(Inc(nonce), chunk)
  }

  ghost predicate Chunky(cs: seq<bytes>) {
    forall i :: 0 <= i < |cs| ==> 0 < |cs[i]| <= MAX_CHUNK
  }

  function Encode(a: Aead, nonce: bytes, cs: seq<bytes>): bytes
    requires Chunky(cs)
    decreases |cs|
  {
    if cs == [] then [] else Frame(a, nonce, cs[0]) + Encode(a, IncBy(nonce, 2), cs[1..])
  }

  lemma ChunkyTail(cs: seq<bytes>)
    requires Chunky(cs) && cs != []
    ensures Chunky(cs[1..])
  {
  }

  lemma ChunkyAppend(a: seq<bytes>, b: seq<bytes>)
    requires Chunky(a) && Chunky(b)
    ensures Chunky(a + b)
  {
  }

  lemma {:induction false} EncodeAppend(a: Aead, nonce: bytes, cs: seq<bytes>, ds: seq<bytes>)
    requires Chunky(cs) && Chunky(ds)
    ensures Chunky(cs + ds)
    ensures Encode(a, nonce, cs + ds) == Encode(a, nonce, cs) + Encode(a, IncBy(nonce, 2 * |cs|), ds)
    decreases |cs|
  {
    hide Frame, IncBy, Encode;
    ChunkyAppend(cs, ds);
    IncZero(nonce);
    EncodeNothing(a, nonce);
    if cs == [] {
      assert cs + ds == ds;
    } else {
      ChunkyTail(cs);
      assert (cs + ds)[1..] == cs[1..] + ds && (cs + ds)[0] == cs[0];
      var k := 2 * |cs[1..]|;
      EncodeAppend(a, IncBy(nonce, 2), cs[1..], ds);
      IncByAdd(nonce, 2, k);
      assert 2 * |cs| == 2 + k;
      EncodeCons(a, nonce, cs);
      EncodeCons(a, nonce, cs + ds);
      Associative(Frame(a, nonce, cs[0]), Encode(a, IncBy(nonce, 2), cs[1..]), Encode(a, IncBy(nonce, 2 * |cs|), ds));
    }
  }

  lemma EncodeCons(a: Aead, nonce: bytes, cs: seq<bytes>)
    requires Chunky(cs) && cs != []
    ensures Chunky(cs[1..])
    ensures Encode(a, nonce, cs) == Frame(a, nonce, cs[0]) + Encode(a, IncBy(nonce, 2), cs[1..])
  {
  }

  lemma IncZero(b: bytes)
    ensures IncBy(b, 0) == b
  {
  }

  /** A write is cut into chunks of the maximal size and a rest. */
  function Chunked(p: bytes): (cs: seq<bytes>)
    ensures Chunky(cs) && Concat(cs) == p
    decreases |p|
  {
    if p == [] then []
    else if |p| <= MAX_CHUNK then ConcatSnoc([], p); assert [] + [p] == [p]; [p]
    else
      var rest := Chunked(p[MAX_CHUNK..]);
      assert p[..MAX_CHUNK] + p[MAX_CHUNK..] == p;
      assert ([p[..MAX_CHUNK]] + rest)[1..] == rest;
      [p[..MAX_CHUNK]] + rest
  }

  class Writer {
    const aead: Aead
    const nonce: array<byte>
    var out: bytes

    ghost predicate Valid() {
      nonce.Length == 32 && aead.nonceSize <= 32
    }

    ghost function Nonce(): bytes
      requires Valid()
      reads nonce
    {
      nonce[..aead.nonceSize]
    }

    constructor (aead: Aead)
      requires aead.nonceSize <= 32
      ensures Valid() && this.aead == aead && out == [] && fresh(nonce)
      ensures Nonce() == seq(aead.nonceSize, i => 0)
    {
      this.aead := aead;
      nonce := new byte[32](i => 0);
      out := [];
    }

    /** Seals and sends one chunk. */
    method WriteChunk(c: bytes)
      requires Valid() && |c| <= MAX_CHUNK
      modifies this`out, nonce
      ensures out == old(out) + Frame(aead, old(Nonce()), c) && Nonce() == IncBy(old(Nonce()), 2)
    {
      ghost var n := Nonce();
      var size := [(|c| / 256) as byte, (|c| % 256) as byte];
      var buf := aead.seal(nonce[..aead.nonceSize], size);
      Increment(nonce, aead.nonceSize);
      buf := buf + aead.seal(nonce[..aead.nonceSize], c);
      Increment(nonce, aead.nonceSize);
      out := out + buf;
      assert IncBy(n, 1) == Inc(IncBy(n, 0)) && IncBy(n, 2) == Inc(IncBy(n, 1));
    }

    method Write(p: bytes)
      requires Valid()
      modifies this`out, nonce
      ensures p == [] ==> out == old(out) + aead.seal(old(Nonce()), [0, 0]) && Nonce() == Inc(old(Nonce()))
      ensures p != [] ==>
        && out == old(out) + Encode(aead, old(Nonce()), Chunked(p))
        && Nonce() == IncBy(old(Nonce()), 2 * |Chunked(p)|)
    {
      hide Frame, Inc, IncBy, Encode, Chunky, Chunked;
      if |p| == 0 {
        out := out + aead.seal(nonce[..aead.nonceSize], [0, 0]);
        Increment(nonce, aead.nonceSize);
        return;
      }
      ghost var n0, done: seq<bytes>, cs := Nonce(), [], Chunked(p);
      EncodeNothing(aead, n0);
      IncZero(n0);
      ChunkedEnds(p);
      var n := 0;
      assert p[0..] == p;
      while n < |p|
        invariant 0 <= n <= |p| && Chunky(done) && cs == done + Chunked(p[n..])
        invariant out == old(out) + Encode(aead, n0, done) && Nonce() == IncBy(n0, 2 * |done|)
      {
        var nr := if n + MAX_CHUNK > |p| then |p| - n else MAX_CHUNK;
        var c := p[n..n + nr];
        ChunkedStep(p, n, nr);
        WriteChunk(c);
        EncodeSnoc(aead, n0, done, c);
        done := done + [c];
        n := n + nr;
      }
      assert p[n..] == [] && done + [] == done;
    }
  }

  lemma EncodeNothing(a: Aead, nonce: bytes)
    ensures Encode(a, nonce, []) == []
  {
  }

  lemma EncodeOne(a: Aead, nonce: bytes, c: bytes)
    requires 0 < |c| <= MAX_CHUNK
    ensures Chunky([c]) && Encode(a, nonce, [c]) == Frame(a, nonce, c)
  {
    assert [c][1..] == [];
    assert Frame(a, nonce, c) + [] == Frame(a, nonce, c);
  }

  lemma EncodeSnoc(a: Aead, nonce: bytes, cs: seq<bytes>, c: bytes)
    requires Chunky(cs) && 0 < |c| <= MAX_CHUNK
    ensures Chunky(cs + [c])
    ensures Encode(a, nonce, cs + [c]) == Encode(a, nonce, cs) + Frame(a, IncBy(nonce, 2 * |cs|), c)
    ensures IncBy(IncBy(nonce, 2 * |cs|), 2) == IncBy(nonce, 2 * |cs + [c]|)
  {
    hide Frame, IncBy, Encode;
    EncodeOne(a, IncBy(nonce, 2 * |cs|), c);
    EncodeAppend(a, nonce, cs, [c]);
    IncByAdd(nonce, 2 * |cs|, 2);
  }

  lemma ChunkedEnds(p: bytes)
    ensures Chunked([]) == [] && Chunky([]) && [] + Chunked(p) == Chunked(p)
  {
  }

  lemma ChunkedStep(p: bytes, n: nat, nr: nat)
    requires n < |p| && nr == if n + MAX_CHUNK > |p| then |p| - n else MAX_CHUNK
    ensures 0 < nr <= MAX_CHUNK && Chunked(p[n..]) == [p[n..n + nr]] + Chunked(p[n + nr..])
  {
    var q := p[n..];
    assert q[nr..] == p[n + nr..] && q[..nr] == p[n..n + nr];
    if |q| <= MAX_CHUNK {
      assert q == p[n..n + nr] && p[n + nr..] == [];
    }
  }

  // ----- reading

  datatype ReadError = EOF | UnexpectedEOF | Auth | ZeroChunk

  /** What is left of the stream, the nonce, and the unread part of the buffered chunk. */
  datatype Receiver = Receiver(inp: bytes, nonce: bytes, left: bytes)

  function Short(inp: bytes): ReadError {
    if inp == [] then EOF else UnexpectedEOF
  }

  /** Reader.read: one chunk. */
  function TakeChunk(a: Aead, inp: bytes, nonce: bytes): (bytes, bytes, Result<bytes, ReadError>)
    requires Sized(a)
  {
    var head := 2 + a.overhead;
    if |inp| < head then ([], nonce, Err(Short(inp)))
    else
      var rest, h := inp[head..], a.open(nonce, inp[..head]);
      if h.None? then (rest, Inc(nonce), Err(Auth))
      else
        var size := And(U16At(h.value, 0), MAX_CHUNK);
        if size == 0 then (rest, Inc(nonce), Err(ZeroChunk))
        else if |rest| < size + a.overhead then ([], Inc(nonce), Err(Short(rest)))
        else
          var c := a.open(Inc(nonce), rest[..size + a.overhead]);
          (rest[size + a.overhead..], Inc(Inc(nonce)), if c.None? then Err(Auth) else Ok(c.value))
  }

  function Min(x: nat, y: nat): nat {
    if x < y then x else y
  }

  /** Reader.Read with a buffer of `want` bytes. */
  function Receive(a: Aead, s: Receiver, want: nat): (Receiver, Result<bytes, ReadError>)
    requires Sized(a)
  {
    if s.left != [] then
      var k := Min(want, |s.left|);
      (s.(left := s.left[k..]), Ok(s.left[..k]))
    else
      var (inp, nonce, r) := TakeChunk(a, s.inp, s.nonce);
      match r
      case Err(e) => (Receiver(inp, nonce, []), Err(e))
      case Ok(c) =>
        if want >= MAX_CHUNK + a.overhead then (Receiver(inp, nonce, []), Ok(c))
        else
          var k := Min(want, |c|);
          (Receiver(inp, nonce, c[k..]), Ok(c[..k]))
  }

  lemma LeftSplit(buf: bytes, off: nat, n: nat)
    requires off + n <= |buf|
    ensures buf[off..][..n] == buf[off..off + n] && buf[off..][n..] == buf[off + n..]
  {
    assert buf[off..] == buf[off..|buf|] && buf[off + n..] == buf[off + n..|buf|];
    Cut(buf, off, |buf|, n);
  }

  class Reader {
    const aead: Aead
    const nonce: array<byte>
    var inp: bytes
    /** The buffered chunk; empty stands for none. */
    var buf: bytes
    var off: nat

    ghost predicate Valid()
      reads this
    {
      nonce.Length == 32 && aead.nonceSize <= 32 && Sized(aead) && (buf == [] ==> off == 0) && (buf != [] ==> off < |buf|)
    }

    ghost function State(): Receiver
      requires Valid()
      reads this, nonce
    {
      Receiver(inp, nonce[..aead.nonceSize], buf[off..])
    }

    constructor (aead: Aead, inp: bytes)
      requires aead.nonceSize <= 32 && Sized(aead)
      ensures Valid() && this.aead == aead && fresh(nonce)
      ensures State() == Receiver(inp, seq(aead.nonceSize, i => 0), [])
    {
      this.aead, this.inp := aead, inp;
      nonce := new byte[32](i => 0);
      buf, off := [], 0;
    }

    method ReadChunk() returns (r: Result<bytes, ReadError>)
      requires Valid()
      modifies this`inp, nonce
      ensures Valid() && (inp, nonce[..aead.nonceSize], r) == old(TakeChunk(aead, inp, nonce[..aead.nonceSize]))
    {
      hide And, Inc;
      var head := 2 + aead.overhead;
      if |inp| < head {
        r := Err(Short(inp));
        inp := [];
        return;
      }
      var h := aead.open(nonce[..aead.nonceSize], inp[..head]);
      inp := inp[head..];
      Increment(nonce, aead.nonceSize);
      if h.None? {
        return Err(Auth);
      }
      var size := And(U16At(h.value, 0), MAX_CHUNK);
      if size == 0 {
        return Err(ZeroChunk);
      }
      if |inp| < size + aead.overhead {
        r := Err(Short(inp));
        inp := [];
        return;
      }
      var c := aead.open(nonce[..aead.nonceSize], inp[..size + aead.overhead]);
      inp := inp[size + aead.overhead..];
      Increment(nonce, aead.nonceSize);
      return if c.None? then Err(Auth) else Ok(c.value);
    }

    /** Hands out bytes that are left of a chunk. */
    method TakeLeft(want: nat) returns (b: bytes)
      requires Valid()
      modifies this`buf, this`off
      ensures Valid()
      ensures
        var left := old(buf[off..]);
        var k := Min(want, |left|);
        b == left[..k] && buf[off..] == left[k..]
    {
      var n := Min(want, |buf| - off);
      LeftSplit(buf, off, n);
      b := buf[off..off + n];
      off := off + n;
      if off == |buf| {
        assert buf[off..] == [];
        buf, off := [], 0;
      }
    }

    method Read(want: nat) returns (r: Result<bytes, ReadError>)
      requires Valid()
      modifies this, nonce
      ensures Valid() && (State(), r) == Receive(aead, old(State()), want)
    {
      hide And, Inc, TakeChunk, Sized, Min;
      if buf == [] {
        r := ReadChunk();
        assert buf[off..] == [];
        if r.Err? || want >= MAX_CHUNK + aead.overhead {
          return;
        }
        TakenNonEmpty(aead, old(inp), old(nonce[..aead.nonceSize]));
        buf := r.value;
        off := 0;
        assert buf[0..] == buf;
      }
      var b := TakeLeft(want);
      r := Ok(b);
    }
  }

  lemma TakenNonEmpty(a: Aead, inp: bytes, nonce: bytes)
    requires Sized(a)
    ensures
      var r := TakeChunk(a, inp, nonce).2;
      r.Ok? ==> r.value != []
  {
  }

  // ----- the round trip

  lemma SizeMasked(n: nat)
    requires n <= MAX_CHUNK
    ensures And(n, MAX_CHUNK) == n
  {
    assert Pow2(14) == 0x4000 by {
      Pow2Add(7, 7);
      assert Pow2(7) == 128;
    }
    AndMask(n, 14);
    ModSmall(n, 0x4000);
  }

  /** A receiver in step with the sender takes the next chunk off the stream. */
  lemma TakeFrame(a: Aead, nonce: bytes, c: bytes, rest: bytes)
    requires Correct(a) && 0 < |c| <= MAX_CHUNK
    ensures TakeChunk(a, Frame(a, nonce, c) + rest, nonce) == (rest, IncBy(nonce, 2), Ok(c))
  {
    hide And, Inc, U16, U16At;
    var h, b := a.seal(nonce, U16(|c|)), a.seal(Inc(nonce), c);
    var inp := Frame(a, nonce, c) + rest;
    assert inp[..2 + a.overhead] == h;
    assert inp[2 + a.overhead..] == b + rest;
    assert (b + rest)[..|c| + a.overhead] == b && (b + rest)[|c| + a.overhead..] == rest;
    U16Back(|c|);
    SizeMasked(|c|);
    assert IncBy(nonce, 1) == Inc(IncBy(nonce, 0)) && IncBy(nonce, 2) == Inc(IncBy(nonce, 1));
  }

  lemma U16Back(n: nat)
    requires n < 0x1_0000
    ensures U16At(U16(n), 0) == n
  {
  }

  /** The receiver will see exactly these chunks. */
  ghost predicate InStep(a: Aead, s: Receiver, cs: seq<bytes>) {
    Chunky(cs) && s.inp == Encode(a, s.nonce, cs)
  }

  function Unread(s: Receiver, cs: seq<bytes>): bytes {
    s.left + Concat(cs)
  }

  /** Every read hands out the next bytes of the plaintext; it fails only at the end. */
  lemma ReceiveInStep(a: Aead, s: Receiver, cs: seq<bytes>, want: nat) returns (cs': seq<bytes>)
    requires Correct(a) && InStep(a, s, cs)
    ensures
      var (s', r) := Receive(a, s, want);
      && InStep(a, s', cs')
      && match r
         case Err(e) => e == EOF && Unread(s, cs) == [] && Unread(s', cs') == []
         case Ok(b) =>
           && b + Unread(s', cs') == Unread(s, cs) && |b| <= want
           && (want > 0 ==> b != [])
  {
    hide Frame, TakeChunk, IncBy, Encode;
    if s.left != [] {
      cs' := cs;
      var k := Min(want, |s.left|);
      assert s.left[..k] + (s.left[k..] + Concat(cs)) == s.left + Concat(cs);
    } else if cs == [] {
      cs' := [];
      EncodeNothing(a, s.nonce);
      TakeNothing(a, s.nonce);
    } else {
      cs' := cs[1..];
      EncodeCons(a, s.nonce, cs);
      TakeFrame(a, s.nonce, cs[0], Encode(a, IncBy(s.nonce, 2), cs[1..]));
      var c := cs[0];
      var k := Min(want, |c|);
      assert [] + Concat(cs) == c + Concat(cs');
      assert c[..k] + (c[k..] + Concat(cs')) == c + Concat(cs');
    }
  }

  lemma TakeNothing(a: Aead, nonce: bytes)
    requires Sized(a)
    ensures TakeChunk(a, [], nonce) == ([], nonce, Err(EOF))
  {
  }

  /** The bytes delivered by reads of the given sizes, up to the first error. */
  function Delivered(a: Aead, s: Receiver, wants: seq<nat>): bytes
    requires Sized(a)
    decreases |wants|
  {
    if wants == [] then []
    else
      var (s', r) := Receive(a, s, wants[0]);
      if r.Err? then [] else r.value + Delivered(a, s', wants[1..])
  }

  lemma {:induction false} DeliveredPrefix(a: Aead, s: Receiver, cs: seq<bytes>, wants: seq<nat>)
    requires Correct(a) && InStep(a, s, cs) && forall i :: 0 <= i < |wants| ==> wants[i] > 0
    ensures Delivered(a, s, wants) <= Unread(s, cs)
    ensures |wants| >= |Unread(s, cs)| ==> Delivered(a, s, wants) == Unread(s, cs)
    decreases |wants|
  {
    hide Receive, InStep;
    if wants != [] {
      var cs' := ReceiveInStep(a, s, cs, wants[0]);
      var (s', r) := Receive(a, s, wants[0]);
      if r.Ok? {
        DeliveredPrefix(a, s', cs', wants[1..]);
      }
    }
  }

  // ----- sender and receiver together

  /** The stream produced by a sequence of non-empty writes. */
  function Stream(a: Aead, nonce: bytes, ps: seq<bytes>): bytes
    decreases |ps|
  {
    if ps == [] then []
    else
      var cs := Chunked(ps[0]);
      Encode(a, nonce, cs) + Stream(a, IncBy(nonce, 2 * |cs|), ps[1..])
  }

  function AllChunks(ps: seq<bytes>): (cs: seq<bytes>)
    ensures Chunky(cs) && Concat(cs) == Concat(ps)
    decreases |ps|
  {
    if ps == [] then []
    else
      ConcatAppend(Chunked(ps[0]), AllChunks(ps[1..]));
      Chunked(ps[0]) + AllChunks(ps[1..])
  }

  lemma {:induction false} StreamIsEncode(a: Aead, nonce: bytes, ps: seq<bytes>)
    ensures Stream(a, nonce, ps) == Encode(a, nonce, AllChunks(ps))
    decreases |ps|
  {
    hide Encode, Chunked, IncBy;
    if ps == [] {
      EncodeNothing(a, nonce);
    } else {
      var cs := Chunked(ps[0]);
      StreamIsEncode(a, IncBy(nonce, 2 * |cs|), ps[1..]);
      EncodeAppend(a, nonce, cs, AllChunks(ps[1..]));
    }
  }

  /** Round trip: whatever non-empty pieces were written and whatever positive
      sizes are read, the reader delivers a prefix of the written bytes, and all
      of them once it has read often enough. */
  lemma RoundTrip(a: Aead, nonce: bytes, ps: seq<bytes>, wants: seq<nat>)
    requires Correct(a) && forall i :: 0 <= i < |wants| ==> wants[i] > 0
    ensures
      var got := Delivered(a, Receiver(Stream(a, nonce, ps), nonce, []), wants);
      got <= Concat(ps) && (|wants| >= |Concat(ps)| ==> got == Concat(ps))
  {
    hide Delivered, Stream, AllChunks, Encode;
    var s, cs := Receiver(Stream(a, nonce, ps), nonce, []), AllChunks(ps);
    StreamIsEncode(a, nonce, ps);
    DeliveredPrefix(a, s, cs, wants);
    assert Unread(s, cs) == [] + Concat(ps) == Concat(ps);
  }

  // ----- the format

  /** A write is cut into chunks of 16383 bytes, the last one taking the rest. */
  lemma {:induction false} ChunkedSizes(p: bytes)
    ensures |Chunked(p)| == (|p| + 16382) / 16383
    ensures forall i :: 0 <= i < |Chunked(p)| - 1 ==> |Chunked(p)[i]| == 16383
    decreases |p|
  {
    if |p| > 16383 {
      ChunkedSizes(p[16383..]);
    }
  }

  /** A frame is the sealed length, high byte first, and the sealed payload under the
      next nonce. */
  lemma FrameLayout(a: Aead, nonce: bytes, c: bytes)
    requires |c| <= 16383
    ensures Frame(a, nonce, c) ==
            a.seal(nonce, [(|c| / 256) as byte, (|c| % 256) as byte]) + a.seal(Inc(nonce), c)
  {
  }

  /** What a read of a chunk makes of any input: the outcome, how much of the input it
      takes, and how often the nonce is advanced. */
  lemma ChunkOutcome(a: Aead, inp: bytes, nonce: bytes)
    requires Sized(a)
    ensures
      var (rest, nonce', r) := TakeChunk(a, inp, nonce);
      var n := 2 + a.overhead;
      && (r.Ok? ==>
            |inp| >= n && a.open(nonce, inp[..n]).Some? &&
            var size := U16At(a.open(nonce, inp[..n]).value, 0) % 16384;
            && size > 0 && |inp| >= n + size + a.overhead
            && a.open(Inc(nonce), inp[n..][..size + a.overhead]) == Some(r.value)
            && rest == inp[n..][size + a.overhead..] && nonce' == Inc(Inc(nonce)))
      && (|inp| < n ==> nonce' == nonce && r == Err(if inp == [] then EOF else UnexpectedEOF))
      && (|inp| >= n && a.open(nonce, inp[..n]).None? ==> r == Err(Auth) && nonce' == Inc(nonce))
      && (|inp| >= n && a.open(nonce, inp[..n]).Some? && U16At(a.open(nonce, inp[..n]).value, 0) % 16384 == 0 ==>
            r == Err(ZeroChunk) && nonce' == Inc(nonce))
  {
    hide Inc;
    var n := 2 + a.overhead;
    if |inp| >= n && a.open(nonce, inp[..n]).Some? {
      Mask14(U16At(a.open(nonce, inp[..n]).value, 0));
    }
    hide And;
  }

  lemma Mask14(x: nat)
    ensures And(x, 16383) == x % 16384
  {
    assert Pow2(7) == 128;
    Pow2Add(7, 7);
    AndMask(x, 14);
  }
}
