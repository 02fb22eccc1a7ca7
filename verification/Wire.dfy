/** Big-endian fields and pieces of a byte string. */
module Wire {
  import opened Common

  function U16(n: nat): (b: bytes)
    requires n < 0x1_0000
    ensures |b| == 2 && b[0] as nat * 256 + b[1] as nat == n
  {
    [(n / 256) as byte, (n % 256) as byte]
  }

  function U16At(data: bytes, i: nat): (n: nat)
    requires i + 2 <= |data|
    ensures n < 0x1_0000
  {
    data[i] as nat * 256 + data[i + 1] as nat
  }

  function U24At(data: bytes, i: nat): nat
    requires i + 3 <= |data|
  {
    data[i] as nat * 0x1_0000 + data[i + 1] as nat * 256 + data[i + 2] as nat
  }

  /** data holds piece at offset i. */
  ghost predicate Has(data: bytes, i: nat, piece: bytes) {
    i + |piece| <= |data| && data[i..i + |piece|] == piece
  }

  lemma HasSlice(data: bytes, i: nat, piece: bytes)
    requires Has(data, i, piece)
    ensures i + |piece| <= |data| && data[i..i + |piece|] == piece
  {
  }

  lemma HasConcat(data: bytes, i: nat, a: bytes, b: bytes)
    ensures Has(data, i, a + b) <==> Has(data, i, a) && Has(data, i + |a|, b)
  {
    if Has(data, i, a + b) {
      assert data[i..i + |a|] == data[i..i + |a + b|][..|a|] == a;
      assert data[i + |a|..i + |a| + |b|] == data[i..i + |a + b|][|a|..] == b;
    }
    if Has(data, i, a) && Has(data, i + |a|, b) {
      assert data[i..i + |a + b|] == data[i..i + |a|] + data[i + |a|..i + |a| + |b|];
    }
  }

  lemma HasFour(data: bytes, i: nat, a: bytes, b: bytes, c: bytes, d: bytes)
    ensures Has(data, i, a + (b + (c + d))) <==>
      && Has(data, i, a) && Has(data, i + |a|, b)
      && Has(data, i + |a| + |b|, c) && Has(data, i + |a| + |b| + |c|, d)
  {
    hide Has;
    HasConcat(data, i, a, b + (c + d));
    HasConcat(data, i + |a|, b, c + d);
    HasConcat(data, i + |a| + |b|, c, d);
  }

  lemma HasByte(data: bytes, i: nat, x: byte)
    requires Has(data, i, [x])
    ensures data[i] == x
  {
    assert data[i] == data[i..i + 1][0];
  }

  lemma HasU16(data: bytes, i: nat, n: nat)
    requires n < 0x1_0000 && Has(data, i, U16(n))
    ensures U16At(data, i) == n
  {
    var p := data[i..i + 2];
    assert data[i] == p[0] && data[i + 1] == p[1];
  }

  lemma HasLength(data: bytes, i: nat, piece: bytes)
    requires Has(data, i, piece)
    ensures i + |piece| <= |data| && data[i..i + |piece|] == piece
  {
  }

  lemma HasFront(data: bytes, piece: bytes)
    requires Has(data, 0, piece)
    ensures |piece| <= |data| && data[..|piece|] == piece
  {
  }

  lemma HasBack(data: bytes, i: nat, piece: bytes)
    requires Has(data, i, piece) && |data| == i + |piece|
    ensures data[i..] == piece
  {
  }

  lemma HasWhole(data: bytes)
    ensures Has(data, 0, data)
  {
    assert data[0..|data|] == data;
  }
}
