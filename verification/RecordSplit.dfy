/** Splitting a ClientHello record into several records and TCP segments
    (core/fragment.go), without out-of-band bytes. */
module RecordSplit {
  import opened Common
  import opened Wire

  // ----- where to cut

  function LastIndex(s: bytes, c: byte): (i: int)
    ensures -1 <= i < |s|
    ensures i >= 0 ==> s[i] == c
    ensures forall k :: i < k < |s| ==> s[k] != c
  {
    if s == [] then -1 else if s[|s| - 1] == c then |s| - 1 else LastIndex(s[..|s| - 1], c)
  }

  /** The last dot of the server name, or the middle of it, or of the data. */
  function FindLastDotOrMidPos(data: bytes, sniStart: int, sniLen: int): (cut: nat)
    ensures data != [] ==> cut < |data|
    ensures cut <= |data|
  {
    if sniStart < 0 || sniLen <= 0 || sniStart + sniLen > |data| then |data| / 2
    else
      var i := LastIndex(data[sniStart..sniStart + sniLen], 46);
      if i == -1 then sniLen / 2 + sniStart else sniStart + i
  }

  /** The cut is at the last dot of the name, or in the middle of a name without one, or
      in the middle of the data when there is no name. */
  lemma CutExactly(data: bytes, sniStart: int, sniLen: int)
    ensures
      var cut := FindLastDotOrMidPos(data, sniStart, sniLen);
      if sniStart < 0 || sniLen <= 0 || sniStart + sniLen > |data| then cut == |data| / 2
      else
        && (46 in data[sniStart..sniStart + sniLen] ==>
              && sniStart <= cut < sniStart + sniLen && data[cut] == 46
              && forall i :: cut < i < sniStart + sniLen ==> data[i] != 46)
        && (46 !in data[sniStart..sniStart + sniLen] ==> cut == sniStart + sniLen / 2)
  {
    if !(sniStart < 0 || sniLen <= 0 || sniStart + sniLen > |data|) {
      var name := data[sniStart..sniStart + sniLen];
      var k := LastIndex(name, 46);
      if 46 in name {
        var cut := sniStart + k;
        forall i | cut < i < sniStart + sniLen ensures data[i] != 46 {
          assert name[i - sniStart] == data[i];
        }
      }
    }
  }

  /** A name behind the record header is never cut inside the header. */
  lemma CutBehindHeader(data: bytes, sniStart: int, sniLen: int)
    requires 5 < sniStart && 0 < sniLen && sniStart + sniLen <= |data|
    ensures 5 < FindLastDotOrMidPos(data, sniStart, sniLen) < |data|
  {
  }

  // ----- cutting

  lemma MulStep(n: nat, base: nat)
    requires n > 0
    ensures n * base == (n - 1) * base + base && (n - 1) * base >= 0
  {
  }

  lemma QuotientFits(len: nat, n: nat)
    requires n > 0
    ensures n * (len / n) <= len
    ensures len >= n ==> len / n >= 1
  {
  }

  /** n pieces of size base, the last one taking the remainder. */
  function Pieces(data: bytes, base: nat, n: nat): (ps: seq<bytes>)
    requires n > 0 && n * base <= |data|
    ensures |ps| == n
    decreases n
  {
    MulStep(n, base);
    if n == 1 then [data] else [data[..base]] + Pieces(data[base..], base, n - 1)
  }

  lemma {:induction false} PiecesJoin(data: bytes, base: nat, n: nat)
    requires n > 0 && n * base <= |data|
    ensures Concat(Pieces(data, base, n)) == data
    ensures base > 0 ==> forall p :: p in Pieces(data, base, n) ==> p != []
    ensures forall p :: p in Pieces(data, base, n) ==> |p| <= |data|
    decreases n
  {
    if n == 1 {
      ConcatSnoc([], data);
      assert [data] == [] + [data];
    } else {
      MulStep(n, base);
      var first, rest := data[..base], Pieces(data[base..], base, n - 1);
      assert Pieces(data, base, n) == [first] + rest;
      PiecesJoin(data[base..], base, n - 1);
      hide Pieces;
      ConcatCons(first, rest);
      assert first + data[base..] == data;
    }
  }

  lemma ConcatCons(x: bytes, rest: seq<bytes>)
    ensures Concat([x] + rest) == x + Concat(rest)
  {
    assert ([x] + rest)[1..] == rest;
  }

  /** n pieces of equal size, or one when there are fewer bytes than pieces. */
  function Parts(data: bytes, n: int): (ps: seq<bytes>)
    ensures n >= 1 ==> |ps| >= 1
    ensures n <= 0 ==> ps == []
  {
    if n <= 0 then []
    else if n == 1 || |data| < n then [data]
    else
      QuotientFits(|data|, n);
      Pieces(data, |data| / n, n)
  }

  /** Cutting loses nothing and makes no empty piece out of non-empty data. */
  lemma PartsJoin(data: bytes, n: int)
    requires n >= 1
    ensures Concat(Parts(data, n)) == data
    ensures data != [] ==> forall p :: p in Parts(data, n) ==> p != []
    ensures forall p :: p in Parts(data, n) ==> |p| <= |data|
    ensures data == [] ==> Parts(data, n)[0] == []
  {
    if n == 1 || |data| < n {
      ConcatSnoc([], data);
      assert [data] == [] + [data];
    } else {
      QuotientFits(|data|, n);
      PiecesJoin(data, |data| / n, n);
    }
  }

  lemma {:induction false} PiecesSizes(data: bytes, base: nat, n: nat, i: nat)
    requires n > 0 && n * base <= |data| && i < n - 1
    ensures |Pieces(data, base, n)[i]| == base
    decreases n
  {
    MulStep(n, base);
    var rest := Pieces(data[base..], base, n - 1);
    assert Pieces(data, base, n) == [data[..base]] + rest;
    if i > 0 {
      PiecesSizes(data[base..], base, n - 1, i - 1);
    }
  }

  /** n parts when there are that many bytes, all but the last of the same size. */
  lemma PartsCount(data: bytes, n: nat)
    requires n >= 1
    ensures |Parts(data, n)| == if |data| < n then 1 else n
    ensures forall i :: 0 <= i < |Parts(data, n)| - 1 ==> |Parts(data, n)[i]| == |data| / n
  {
    if n == 1 || |data| < n {
    } else {
      QuotientFits(|data|, n);
      forall i | 0 <= i < n - 1 ensures |Parts(data, n)[i]| == |data| / n {
        PiecesSizes(data, |data| / n, n, i);
      }
    }
  }

  // ----- records

  /** header is content type and version. */
  function MakeRecord(header: bytes, payload: bytes): (r: bytes)
    requires |header| == 3
    ensures |r| == 5 + |payload|
  {
    header + (U16(|payload| % 0x1_0000) + payload)
  }

  function Wrap(header: Option<bytes>, p: bytes): bytes
    requires header.Some? ==> |header.value| == 3
  {
    if header.None? then p else MakeRecord(header.value, p)
  }

  function WrapAll(header: Option<bytes>, ps: seq<bytes>): (r: seq<bytes>)
    requires header.Some? ==> |header.value| == 3
    ensures |r| == |ps|
  {
    seq(|ps|, i requires 0 <= i < |ps| => Wrap(header, ps[i]))
  }

  lemma WrapAppend(header: Option<bytes>, a: seq<bytes>, b: seq<bytes>)
    requires header.Some? ==> |header.value| == 3
    ensures WrapAll(header, a + b) == WrapAll(header, a) + WrapAll(header, b)
  {
  }

  /** Taking one more piece off the remaining data. */
  lemma PieceStep(data: bytes, base: nat, n: nat, i: nat)
    requires 0 < n && i < n && n * base <= |data|
    ensures i * base <= (i + 1) * base <= |data| && (n - i) * base <= |data| - i * base
    ensures i + 1 < n ==>
      && (n - (i + 1)) * base <= |data| - (i + 1) * base
      && Pieces(data[i * base..], base, n - i)
         == [data[i * base..(i + 1) * base]] + Pieces(data[(i + 1) * base..], base, n - (i + 1))
    ensures i + 1 == n ==> Pieces(data[i * base..], base, n - i) == [data[i * base..]]
  {
    MulStep(i + 1, base);
    assert n * base == i * base + (n - i) * base;
    MulStep(n - i, base);
    if i + 1 < n {
      assert data[i * base..][..base] == data[i * base..(i + 1) * base];
      assert data[i * base..][base..] == data[(i + 1) * base..];
    }
  }

  /** After i pieces: those done, and what remains to be cut. */
  ghost predicate CutSoFar(data: bytes, base: nat, n: nat, i: nat, done: seq<bytes>) {
    && n > 0 && i <= n && n * base <= |data|
    && (i < n ==> i * base <= |data| && (n - i) * base <= |data| - i * base)
    && Pieces(data, base, n) == done + if i == n then [] else Pieces(data[i * base..], base, n - i)
  }

  lemma CutStarts(data: bytes, base: nat, n: nat)
    requires n > 0 && n * base <= |data|
    ensures CutSoFar(data, base, n, 0, [])
  {
    assert data[0 * base..] == data;
  }

  /** Piece i lies between these bounds; the last one takes the rest. */
  lemma CutSteps(data: bytes, base: nat, n: nat, i: nat, done: seq<bytes>)
    requires CutSoFar(data, base, n, i, done) && i < n
    ensures
      var start := i * base;
      var end := if i == n - 1 then |data| else start + base;
      && start <= end <= |data|
      && CutSoFar(data, base, n, i + 1, done + [data[start..end]])
  {
    hide Pieces;
    PieceStep(data, base, n, i);
    MulStep(i + 1, base);
    assert data[i * base..|data|] == data[i * base..];
    var rest := if i + 1 == n then [] else Pieces(data[(i + 1) * base..], base, n - (i + 1));
    var end := if i == n - 1 then |data| else i * base + base;
    Associative(done, [data[i * base..end]], rest);
    assert [data[i * base..end]] + [] == [data[i * base..end]];
  }

  lemma CutEnds(data: bytes, base: nat, n: nat, done: seq<bytes>)
    requires CutSoFar(data, base, n, n, done)
    ensures n > 0 && n * base <= |data| && done == Pieces(data, base, n)
  {
    hide Pieces;
    assert done + [] == done;
  }

  method SplitAndAppend(data: bytes, header: Option<bytes>, n: int, before: seq<bytes>) returns (result: seq<bytes>)
    requires header.Some? ==> |header.value| == 3
    ensures result == before + WrapAll(header, Parts(data, n))
  {
    hide Pieces, Wrap;
    result := before;
    if n <= 0 {
      return;
    }
    if n == 1 || |data| < n {
      result := result + [Wrap(header, data)];
      return;
    }
    QuotientFits(|data|, n);
    result := AppendPieces(data, header, n, |data| / n, before);
  }

  method AppendPieces(data: bytes, header: Option<bytes>, n: nat, base: nat, before: seq<bytes>) returns (result: seq<bytes>)
    requires header.Some? ==> |header.value| == 3
    requires n > 0 && n * base <= |data|
    ensures result == before + WrapAll(header, Pieces(data, base, n))
  {
    hide Pieces, WrapAll, Wrap, CutSoFar;
    result := before;
    ghost var done: seq<bytes> := [];
    WrapNothing(header);
    CutStarts(data, base, n);
    for i := 0 to n
      invariant result == before + WrapAll(header, done)
      invariant CutSoFar(data, base, n, i, done)
    {
      CutSteps(data, base, n, i, done);
      var start := i * base;
      var end := start + base;
      if i == n - 1 {
        end := |data|;
      }
      var part := data[start..end];
      WrapAppend(header, done, [part]);
      WrapOne(header, part);
      Associative(before, WrapAll(header, done), [Wrap(header, part)]);
      result := result + [Wrap(header, part)];
      done := done + [part];
    }
    CutEnds(data, base, n, done);
  }

  lemma WrapNothing(header: Option<bytes>)
    requires header.Some? ==> |header.value| == 3
    ensures WrapAll(header, []) == []
  {
  }

  lemma WrapOne(header: Option<bytes>, p: bytes)
    requires header.Some? ==> |header.value| == 3
    ensures WrapAll(header, [p]) == [Wrap(header, p)]
  {
  }

  /** The payloads of the records a ClientHello is split into. */
  function Chunks(hello: bytes, cut: nat, records: nat): seq<bytes>
    requires 5 <= cut <= |hello|
  {
    Parts(hello[5..cut], records / 2) + Parts(hello[cut..], records - records / 2)
  }

  lemma ChunksJoin(hello: bytes, cut: nat, records: nat)
    requires 5 <= cut <= |hello| && records > 1
    ensures Concat(Chunks(hello, cut, records)) == hello[5..]
    ensures |Chunks(hello, cut, records)| >= 2
    ensures forall p :: p in Chunks(hello, cut, records) ==> |p| <= |hello| - 5
    ensures 5 < cut < |hello| ==> forall p :: p in Chunks(hello, cut, records) ==> p != []
    ensures cut == 5 ==> Chunks(hello, cut, records)[0] == []
  {
    hide Parts, Concat;
    var l, r := hello[5..cut], hello[cut..];
    var a, b := Parts(l, records / 2), Parts(r, records - records / 2);
    PartsJoin(l, records / 2);
    PartsJoin(r, records - records / 2);
    ConcatAppend(a, b);
    assert l + r == hello[5..];
    forall p | p in a + b ensures p in a || p in b {
    }
  }

  function WithVersion(hello: bytes, minor: Option<byte>): (h: bytes)
    requires |hello| >= 5
    ensures |h| == |hello| && h[5..] == hello[5..] && h[..2] == hello[..2] && h[3..] == hello[3..]
    ensures h[2] == if minor.None? then hello[2] else minor.value
  {
    if minor.None? then hello else hello[2 := minor.value]
  }

  /** The bytes the peer receives.  With a negative segment count and several
      records, the first record is not written. */
  function Sent(hello: bytes, cut: nat, records: int, segments: int): bytes
    requires |hello| >= 5 && (records > 1 ==> 5 <= cut <= |hello|)
  {
    if records <= 1 then hello
    else
      var chunks := WrapAll(Some(hello[..3]), Chunks(hello, cut, records));
      if segments < 0 && |chunks| > 0 then Concat(chunks[1..]) else Concat(chunks)
  }

  /** How a stream is cut into a number of writes. */
  function Segmented(merged: bytes, segments: nat): (ws: seq<bytes>)
    requires segments > 0
    ensures segments < |merged| ==> |ws| == segments
    ensures segments >= |merged| ==> ws == [merged]
  {
    if segments == 1 || |merged| <= segments then [merged]
    else
      QuotientFits(|merged|, segments);
      Pieces(merged, |merged| / segments, segments)
  }

  /** The list of writes for already normalised counts. */
  function Writes(hello: bytes, cut: nat, records: nat, segments: int): seq<bytes>
    requires cut <= |hello| && (records > 1 ==> 5 <= cut)
  {
    if records <= 1 then
      if segments <= 1 then [hello]
      else Parts(hello[..cut], segments / 2) + Parts(hello[cut..], segments - segments / 2)
    else
      var chunks := WrapAll(Some(hello[..3]), Chunks(hello, cut, records));
      if segments <= 0 then if chunks == [] then [] else chunks[1..]
      else Segmented(Concat(chunks), segments)
  }

  function Normal(n: int): int {
    if n == 0 then 1 else if n < 0 then -1 else n
  }

  lemma SegmentedJoin(merged: bytes, segments: nat)
    requires segments > 0
    ensures Concat(Segmented(merged, segments)) == merged
  {
    if segments == 1 || |merged| <= segments {
      ConcatSnoc([], merged);
      assert [] + [merged] == [merged];
    } else {
      QuotientFits(|merged|, segments);
      PiecesJoin(merged, |merged| / segments, segments);
    }
  }

  lemma OneRecordJoin(hello: bytes, cut: nat, segments: int)
    requires 5 <= |hello| && cut <= |hello|
    ensures Concat(Writes(hello, cut, 1, segments)) == hello
  {
    hide Parts, Concat;
    if segments <= 1 {
      ConcatSnoc([], hello);
      ConcatNothing();
      assert [] + [hello] == [hello];
    } else {
      var left, right := Parts(hello[..cut], segments / 2), Parts(hello[cut..], segments - segments / 2);
      PartsJoin(hello[..cut], segments / 2);
      PartsJoin(hello[cut..], segments - segments / 2);
      ConcatAppend(left, right);
      assert hello[..cut] + hello[cut..] == hello;
    }
  }

  /** The writes carry what the peer is to receive. */
  lemma WritesJoin(hello: bytes, cut: nat, records: int, segments: int)
    requires 5 <= |hello| && cut <= |hello| && (records > 1 ==> 5 <= cut)
    ensures Concat(Writes(hello, cut, if records < 1 then 1 else records, Normal(segments))) ==
            Sent(hello, cut, records, segments)
  {
    hide WrapAll, Concat, Chunks;
    if records <= 1 {
      OneRecordJoin(hello, cut, Normal(segments));
    } else if segments >= 0 {
      SegmentedJoin(Concat(WrapAll(Some(hello[..3]), Chunks(hello, cut, records))), Normal(segments));
    }
  }

  lemma ConcatNothing()
    ensures Concat<byte>([]) == []
  {
  }

  method SendSegments(merged: bytes, segments: nat) returns (writes: seq<bytes>)
    requires segments > 0
    ensures writes == Segmented(merged, segments)
  {
    hide Pieces, CutSoFar;
    if segments == 1 || |merged| <= segments {
      return [merged];
    }
    var base := |merged| / segments;
    QuotientFits(|merged|, segments);
    writes := [];
    CutStarts(merged, base, segments);
    for i := 0 to segments
      invariant CutSoFar(merged, base, segments, i, writes)
    {
      CutSteps(merged, base, segments, i, writes);
      var start := i * base;
      var end := start + base;
      if i == segments - 1 {
        end := |merged|;
      }
      writes := writes + [merged[start..end]];
    }
    CutEnds(merged, base, segments, writes);
  }

  lemma NoHeader(ps: seq<bytes>)
    ensures WrapAll(None, ps) == ps
  {
  }

  /** sendRecords without out-of-band data: the list of writes, and what they
      amount to. */
  method SendRecords(clientHello: bytes, offset: int, length: int, numRecords: int, numSegments: int, minorVersion: Option<byte>)
    returns (writes: seq<bytes>)
    requires |clientHello| >= 5 && numRecords > 1 ==>
      5 <= FindLastDotOrMidPos(WithVersion(clientHello, minorVersion), offset, length)
    ensures |clientHello| < 5 ==> writes == [clientHello]
    ensures |clientHello| >= 5 ==>
      var hello := WithVersion(clientHello, minorVersion);
      var cut := FindLastDotOrMidPos(hello, offset, length);
      && writes == Writes(hello, cut, if numRecords < 1 then 1 else numRecords, Normal(numSegments))
      && Concat(writes) == Sent(hello, cut, numRecords, numSegments)
  {
    hide Parts, Segmented, WrapAll, Chunks, Concat, Sent, FindLastDotOrMidPos;
    var records := if numRecords < 1 then 1 else numRecords;
    var segments := if numSegments == 0 then 1 else if numSegments < 0 then -1 else numSegments;
    if |clientHello| < 5 {
      return [clientHello];
    }
    var hello := WithVersion(clientHello, minorVersion);
    var cut := FindLastDotOrMidPos(hello, offset, length);
    WritesJoin(hello, cut, numRecords, numSegments);
    if records == 1 {
      if segments < 1 {
        segments := 1;
      }
      if segments == 1 {
        return [hello];
      }
      var leftSegments := segments / 2;
      var rightSegments := segments - leftSegments;
      writes := SplitAndAppend(hello[..cut], None, leftSegments, []);
      writes := SplitAndAppend(hello[cut..], None, rightSegments, writes);
      NoHeader(Parts(hello[..cut], leftSegments));
      NoHeader(Parts(hello[cut..], rightSegments));
      assert writes == Parts(hello[..cut], leftSegments) + Parts(hello[cut..], rightSegments);
      return;
    }
    writes := SendSplit(hello, cut, records, segments);
  }

  method SendSplit(hello: bytes, cut: nat, records: nat, segments: int) returns (writes: seq<bytes>)
    requires records > 1 && 5 <= cut <= |hello| && (segments == -1 || segments > 0)
    ensures writes == Writes(hello, cut, records, segments)
  {
    hide WrapAll, Parts, Concat, Segmented;
    var leftChunks := records / 2;
    var rightChunks := records - leftChunks;
    var header := hello[..3];
    var chunks := SplitAndAppend(hello[5..cut], Some(header), leftChunks, []);
    chunks := SplitAndAppend(hello[cut..], Some(header), rightChunks, chunks);
    WrapAppend(Some(header), Parts(hello[5..cut], leftChunks), Parts(hello[cut..], rightChunks));
    assert chunks == WrapAll(Some(header), Chunks(hello, cut, records));
    if segments == -1 {
      writes := SkipFirst(chunks);
      return;
    }
    var merged := Merge(chunks);
    writes := SendSegments(merged, segments);
  }

  /** The writing loop of the negative segment count, which passes over chunk 0. */
  method SkipFirst(chunks: seq<bytes>) returns (writes: seq<bytes>)
    ensures writes == if chunks == [] then [] else chunks[1..]
  {
    writes := [];
    for i := 0 to |chunks|
      invariant writes == if i == 0 then [] else chunks[1..i]
    {
      if i != 0 {
        writes := writes + [chunks[i]];
      }
    }
  }

  method Merge(chunks: seq<bytes>) returns (merged: bytes)
    ensures merged == Concat(chunks)
  {
    merged := [];
    for i := 0 to |chunks|
      invariant merged == Concat(chunks[..i])
    {
      assert chunks[..i + 1] == chunks[..i] + [chunks[i]];
      ConcatSnoc(chunks[..i], chunks[i]);
      merged := merged + chunks[i];
    }
    assert chunks[..|chunks|] == chunks;
  }

  // ----- what the peer reads

  datatype Record = Record(header: bytes, payload: bytes)

  /** The TLS records a byte stream consists of (section 5.1 of RFC 8446). */
  function Decode(data: bytes): Option<seq<Record>>
    decreases |data|
  {
    if data == [] then Some([])
    else if |data| < 5 || |data| < 5 + U16At(data, 3) then None
    else
      var end := 5 + U16At(data, 3);
      match Decode(data[end..])
      case None => None
      case Some(rs) => Some([Record(data[..3], data[5..end])] + rs)
  }

  function Payloads(rs: seq<Record>): (ps: seq<bytes>)
    ensures |ps| == |rs|
  {
    seq(|rs|, i requires 0 <= i < |rs| => rs[i].payload)
  }

  function RecordsOf(header: bytes, ps: seq<bytes>): (rs: seq<Record>)
    ensures |rs| == |ps|
  {
    seq(|ps|, i requires 0 <= i < |ps| => Record(header, ps[i]))
  }

  lemma RecordThenRest(header: bytes, payload: bytes, rest: bytes)
    requires |header| == 3 && |payload| < 0x1_0000
    ensures MakeRecord(header, payload) + rest == header + (U16(|payload|) + (payload + rest))
    ensures |MakeRecord(header, payload) + rest| == 5 + |payload| + |rest|
  {
    hide U16;
    Associative(U16(|payload|), payload, rest);
    Associative(header, U16(|payload|) + payload, rest);
  }

  lemma DecodeOne(header: bytes, payload: bytes, rest: bytes)
    requires |header| == 3 && |payload| < 0x1_0000
    ensures
      var data := MakeRecord(header, payload) + rest;
      && |data| >= 5 + |payload| && U16At(data, 3) == |payload| && data[..3] == header
      && data[5..5 + |payload|] == payload && data[5 + |payload|..] == rest
  {
    hide MakeRecord, Has, U16, U16At;
    var data := MakeRecord(header, payload) + rest;
    RecordThenRest(header, payload, rest);
    HasWhole(data);
    HasFour(data, 0, header, U16(|payload|), payload, rest);
    HasFront(data, header);
    HasSlice(data, 5, payload);
    HasBack(data, 5 + |payload|, rest);
    HasU16(data, 3, |payload|);
  }

  lemma DecodeCons(header: bytes, payload: bytes, rest: bytes)
    requires |header| == 3 && |payload| < 0x1_0000
    ensures Decode(MakeRecord(header, payload) + rest) ==
      match Decode(rest)
      case None => None
      case Some(rs) => Some([Record(header, payload)] + rs)
  {
    hide MakeRecord;
    DecodeOne(header, payload, rest);
  }

  lemma WrapCons(header: bytes, ps: seq<bytes>)
    requires |header| == 3 && ps != []
    ensures Concat(WrapAll(Some(header), ps)) ==
            MakeRecord(header, ps[0]) + Concat(WrapAll(Some(header), ps[1..]))
  {
    hide MakeRecord;
    var rest := WrapAll(Some(header), ps[1..]);
    assert WrapAll(Some(header), ps) == [MakeRecord(header, ps[0])] + rest;
    ConcatCons(MakeRecord(header, ps[0]), rest);
  }

  lemma RecordsOfCons(header: bytes, ps: seq<bytes>)
    requires ps != []
    ensures RecordsOf(header, ps) == [Record(header, ps[0])] + RecordsOf(header, ps[1..])
  {
  }

  lemma DecodeNothing(header: bytes)
    requires |header| == 3
    ensures Decode(Concat(WrapAll(Some(header), []))) == Some(RecordsOf(header, []))
  {
    WrapNothing(Some(header));
  }

  /** Decoding undoes making records. */
  lemma {:induction false} DecodeRecords(header: bytes, ps: seq<bytes>)
    requires |header| == 3 && forall p :: p in ps ==> |p| < 0x1_0000
    ensures Decode(Concat(WrapAll(Some(header), ps))) == Some(RecordsOf(header, ps))
    decreases |ps|
  {
    hide Decode, Concat, WrapAll, MakeRecord, RecordsOf;
    if ps == [] {
      DecodeNothing(header);
    } else {
      assert ps[0] in ps;
      WrapCons(header, ps);
      DecodeRecords(header, ps[1..]);
      DecodeCons(header, ps[0], Concat(WrapAll(Some(header), ps[1..])));
      RecordsOfCons(header, ps);
    }
  }

  /** The stream decodes to records of one header whose payloads join to `payload`. */
  ghost predicate Means(data: bytes, header: bytes, payload: bytes) {
    match Decode(data)
    case None => false
    case Some(rs) =>
      && Concat(Payloads(rs)) == payload
      && forall i :: 0 <= i < |rs| ==> rs[i].header == header && rs[i].payload != []
  }

  lemma RecordsMean(header: bytes, ps: seq<bytes>)
    requires |header| == 3 && forall p :: p in ps ==> 0 < |p| < 0x1_0000
    ensures Decode(Concat(WrapAll(Some(header), ps))) == Some(RecordsOf(header, ps))
    ensures Payloads(RecordsOf(header, ps)) == ps
    ensures Means(Concat(WrapAll(Some(header), ps)), header, Concat(ps))
  {
    DecodeRecords(header, ps);
    assert Payloads(RecordsOf(header, ps)) == ps;
  }

  /** A complete record, non-empty and no longer than a length field can say. */
  ghost predicate CompleteRecord(hello: bytes) {
    5 < |hello| && |hello| == 5 + U16At(hello, 3)
  }

  lemma WholeMeans(hello: bytes)
    requires CompleteRecord(hello)
    ensures Means(hello, hello[..3], hello[5..])
  {
    assert hello[|hello|..] == [];
    assert Decode([]) == Some([]);
    var r := Record(hello[..3], hello[5..|hello|]);
    assert hello[5..|hello|] == hello[5..];
    assert Decode(hello) == Some([r] + []);
    assert [r] + [] == [r];
    assert Payloads([r]) == [] + [r.payload];
    ConcatSnoc([], r.payload);
  }

  lemma VersionKeepsRecord(hello: bytes, minor: Option<byte>)
    requires CompleteRecord(hello)
    ensures CompleteRecord(WithVersion(hello, minor))
  {
  }

  lemma MeansUnique(data: bytes, header: bytes, p: bytes, q: bytes)
    requires Means(data, header, p) && Means(data, header, q)
    ensures p == q
  {
    hide Decode;
  }

  lemma DroppedChunk(header: bytes, ps: seq<bytes>, payload: bytes)
    requires |header| == 3 && |ps| > 0 && (forall p :: p in ps ==> 0 < |p| < 0x1_0000) && Concat(ps) == payload
    ensures WrapAll(Some(header), ps)[1..] == WrapAll(Some(header), ps[1..])
    ensures !Means(Concat(WrapAll(Some(header), ps)[1..]), header, payload)
  {
    assert ps[0] in ps;
    assert |Concat(ps)| == |ps[0]| + |Concat(ps[1..])|;
    hide WrapAll, Means, Concat;
    WrapTail(header, ps);
    RecordsMean(header, ps[1..]);
    var data := Concat(WrapAll(Some(header), ps[1..]));
    if Means(data, header, payload) {
      MeansUnique(data, header, payload, Concat(ps[1..]));
    }
  }

  /** With the cut right behind the header the first record is empty, and not
      writing it is harmless. */
  lemma EmptyFirst(hello: bytes, records: nat)
    requires 5 < |hello| < 5 + 0x1_0000 && records > 1
    ensures
      var header, ws := hello[..3], WrapAll(Some(hello[..3]), Chunks(hello, 5, records));
      && |ws| > 0
      && Means(Concat(ws[1..]), header, hello[5..])
      && !Means(Concat(ws), header, hello[5..])
  {
    hide Parts, WrapAll, Concat;
    var header, ps := hello[..3], Chunks(hello, 5, records);
    var rest := Parts(hello[5..], records - records / 2);
    EmptyParts(records / 2);
    assert hello[5..5] == [];
    assert ps == [[]] + rest && ps[1..] == rest;
    PartsJoin(hello[5..], records - records / 2);
    RecordsMean(header, rest);
    WrapTail(header, ps);
    forall p | p in ps ensures |p| < 0x1_0000 {
      assert p == [] || p in rest;
    }
    DecodeRecords(header, ps);
    assert RecordsOf(header, ps)[0].payload == [];
  }

  lemma EmptyParts(n: nat)
    requires n > 0
    ensures Parts([], n) == [[]]
  {
  }

  lemma WrapTail(header: bytes, ps: seq<bytes>)
    requires |header| == 3 && |ps| > 0
    ensures WrapAll(Some(header), ps)[1..] == WrapAll(Some(header), ps[1..])
  {
  }

  /** Splitting preserves the meaning of a complete record, cut behind its header,
      for every number of records and segments except "records only": with a
      negative segment count and several records the first record is lost, which
      is harmless exactly when the cut made it empty. */
  lemma SplitPreserves(record: bytes, minor: Option<byte>, cut: nat, records: int, segments: int)
    requires CompleteRecord(record) && 5 <= cut < |record|
    ensures
      var hello := WithVersion(record, minor);
      Means(Sent(hello, cut, records, segments), hello[..3], record[5..]) <==>
        records <= 1 || (segments < 0 <==> cut == 5)
  {
    hide Parts, Means, WrapAll;
    var hello := WithVersion(record, minor);
    VersionKeepsRecord(record, minor);
    if records <= 1 {
      WholeMeans(hello);
    } else if cut == 5 {
      EmptyFirst(hello, records);
    } else {
      var ps := Chunks(hello, cut, records);
      ChunksJoin(hello, cut, records);
      forall p | p in ps ensures 0 < |p| < 0x1_0000 {
      }
      RecordsMean(hello[..3], ps);
      DroppedChunk(hello[..3], ps, record[5..]);
    }
  }

  /** The number of records that the peer decodes, for a non-negative segment count: as
      many as asked for, unless a side of the cut has fewer bytes than its share. */
  lemma RecordCount(record: bytes, minor: Option<byte>, cut: nat, records: nat, segments: nat)
    requires CompleteRecord(record) && 5 <= cut < |record| && records > 1
    ensures
      var rs := Decode(Sent(WithVersion(record, minor), cut, records, segments));
      && rs.Some?
      && |rs.value| == (if cut - 5 < records / 2 then 1 else records / 2) +
                       (if |record| - cut < records - records / 2 then 1 else records - records / 2)
      && (records / 2 <= cut - 5 && records - records / 2 <= |record| - cut ==> |rs.value| == records)
  {
    hide Parts, WrapAll, Decode, Concat;
    var hello := WithVersion(record, minor);
    VersionKeepsRecord(record, minor);
    var ps := Chunks(hello, cut, records);
    ChunksJoin(hello, cut, records);
    PartsCount(hello[5..cut], records / 2);
    PartsCount(hello[cut..], records - records / 2);
    DecodeRecords(hello[..3], ps);
  }

  /** The number of writes: for one record as many as segments are asked for, unless a
      side of the cut is shorter than its share; for several records as many as
      segments, or one when there are fewer bytes; for a negative segment count one for
      each record but the first. */
  lemma WriteCount(hello: bytes, cut: nat, records: nat, segments: int)
    requires 5 <= |hello| && cut <= |hello| && (records > 1 ==> 5 <= cut)
    ensures records <= 1 && segments > 1 ==>
      |Writes(hello, cut, records, segments)| ==
        (if cut < segments / 2 then 1 else segments / 2) +
        (if |hello| - cut < segments - segments / 2 then 1 else segments - segments / 2)
    ensures records <= 1 && segments <= 1 ==> Writes(hello, cut, records, segments) == [hello]
    ensures records > 1 && 0 < segments < |hello| ==> |Writes(hello, cut, records, segments)| == segments
    ensures records > 1 && segments < 0 ==>
      |Writes(hello, cut, records, segments)| ==
        (if cut - 5 < records / 2 then 1 else records / 2) +
        (if |hello| - cut < records - records / 2 then 1 else records - records / 2) - 1
  {
    hide Parts, WrapAll, Concat, Segmented;
    if records <= 1 {
      if segments > 1 {
        PartsCount(hello[..cut], segments / 2);
        PartsCount(hello[cut..], segments - segments / 2);
      }
    } else {
      PartsCount(hello[5..cut], records / 2);
      PartsCount(hello[cut..], records - records / 2);
      WrappedLonger(hello, cut, records);
    }
  }

  /** The records are longer than the hello they carry. */
  lemma WrappedLonger(hello: bytes, cut: nat, records: nat)
    requires 5 <= cut <= |hello| && records > 1
    ensures |Concat(WrapAll(Some(hello[..3]), Chunks(hello, cut, records)))| >= |hello|
  {
    hide Parts, WrapAll, Concat;
    var ps := Chunks(hello, cut, records);
    ChunksJoin(hello, cut, records);
    WrapLength(hello[..3], ps);
  }

  lemma {:induction false} WrapLength(header: bytes, ps: seq<bytes>)
    requires |header| == 3
    ensures |Concat(WrapAll(Some(header), ps))| == |Concat(ps)| + 5 * |ps|
    decreases |ps|
  {
    if ps == [] {
      WrapNothing(Some(header));
    } else {
      WrapCons(header, ps);
      WrapLength(header, ps[1..]);
    }
  }
}
