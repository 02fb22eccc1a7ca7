/** Splitting seen from the peer: what a whole stream means to it when the first
    ClientHello is split on the way. */
module SplitStream {
  import opened ClientHello
  import opened Common
  import opened FirstFlight
  import opened HelloRoundTrip
  import opened ObfsHello
  import opened RecordSplit
  import opened Wire

  // ----- decoding record by record

  /** The first record ends at end. */
  predicate EndsAt(a: bytes, end: nat) {
    |a| >= 5 && end == 5 + U16At(a, 3) <= |a|
  }

  lemma DecodeHead(a: bytes, rs: seq<Record>) returns (end: nat, rest: seq<Record>)
    requires a != [] && Decode(a) == Some(rs)
    ensures EndsAt(a, end) && Decode(a[end..]) == Some(rest) && rs == [Record(a[..3], a[5..end])] + rest
  {
    end := 5 + U16At(a, 3);
    rest := Decode(a[end..]).value;
  }

  lemma DecodeMake(a: bytes, end: nat, rest: seq<Record>)
    requires EndsAt(a, end) && Decode(a[end..]) == Some(rest)
    ensures Decode(a) == Some([Record(a[..3], a[5..end])] + rest)
  {
  }

  lemma EndsAtAppend(a: bytes, b: bytes, end: nat)
    requires EndsAt(a, end)
    ensures EndsAt(a + b, end) && (a + b)[end..] == a[end..] + b
    ensures (a + b)[..3] == a[..3] && (a + b)[5..end] == a[5..end]
  {
  }

  lemma {:induction false} DecodeAppend(a: bytes, b: bytes, qs: seq<Record>, rs: seq<Record>)
    requires Decode(a) == Some(qs) && Decode(b) == Some(rs)
    ensures Decode(a + b) == Some(qs + rs)
    decreases |a|
  {
    hide Decode, EndsAt;
    if a == [] {
      DecodeEmpty();
      assert a + b == b;
      assert [] + rs == rs;
    } else {
      var end, rest := DecodeHead(a, qs);
      EndsAtAppend(a, b, end);
      EndsAtLater(a, end);
      DecodeAppend(a[end..], b, rest, rs);
      DecodeMake(a + b, end, rest + rs);
      assert [Record(a[..3], a[5..end])] + (rest + rs) == ([Record(a[..3], a[5..end])] + rest) + rs;
    }
  }

  lemma DecodeEmpty()
    ensures Decode([]) == Some([])
  {
  }

  lemma EndsAtLater(a: bytes, end: nat)
    requires EndsAt(a, end)
    ensures 5 <= end <= |a|
  {
  }

  /** Records of one header whose payloads join to the given bytes. */
  ghost predicate Carries(rs: seq<Record>, header: bytes, payload: bytes) {
    && Concat(Payloads(rs)) == payload
    && forall i :: 0 <= i < |rs| ==> rs[i].header == header && rs[i].payload != []
  }

  /** The stream decodes to records that carry the payload, followed by the records rs. */
  ghost predicate MeansThen(data: bytes, header: bytes, payload: bytes, rs: seq<Record>) {
    exists qs :: Decode(data) == Some(qs + rs) && Carries(qs, header, payload)
  }

  lemma MeansThenExactly(a: bytes, b: bytes, header: bytes, payload: bytes)
    requires Decode(a).Some? && Decode(b).Some?
    ensures MeansThen(a + b, header, payload, Decode(b).value) <==> Means(a, header, payload)
  {
    hide Decode, Carries;
    DecodeAppend(a, b, Decode(a).value, Decode(b).value);
    var own, rs := Decode(a).value, Decode(b).value;
    MeansCarries(a, header, payload);
    if MeansThen(a + b, header, payload, rs) {
      var qs :| Decode(a + b) == Some(qs + rs) && Carries(qs, header, payload);
      SameFront(qs, own, rs);
    }
  }

  lemma MeansCarries(a: bytes, header: bytes, payload: bytes)
    requires Decode(a).Some?
    ensures Means(a, header, payload) <==> Carries(Decode(a).value, header, payload)
  {
    hide Decode;
  }

  lemma SameFront(a: seq<Record>, b: seq<Record>, rest: seq<Record>)
    requires a + rest == b + rest
    ensures a == b
  {
    assert |a| == |b|;
    assert (a + rest)[..|a|] == a && (b + rest)[..|b|] == b;
  }

  // ----- what is sent for the first record

  /** Whatever the counts, the bytes sent for a record with a server name are whole records. */
  lemma SentDecodes(record: bytes, minor: Option<byte>, cut: nat, records: int, segments: int)
    requires CompleteRecord(record) && 5 <= cut < |record|
    ensures Decode(Sent(WithVersion(record, minor), cut, records, segments)).Some?
  {
    hide Parts, WrapAll, Decode, Concat;
    var hello := WithVersion(record, minor);
    VersionKeepsRecord(record, minor);
    if records <= 1 {
      WholeMeans(hello);
      MeansDecodes(hello, hello[..3], hello[5..]);
    } else {
      var ps := Chunks(hello, cut, records);
      ChunksJoin(hello, cut, records);
      DecodeRecords(hello[..3], ps);
      WrapTail(hello[..3], ps);
      DecodeRecords(hello[..3], ps[1..]);
    }
  }

  lemma MeansDecodes(a: bytes, header: bytes, payload: bytes)
    requires Means(a, header, payload)
    ensures Decode(a).Some?
  {
  }

  /** The policy splits this record: it parses, names a server in the clear, and no
      rule refuses it. */
  predicate Splits(plan: Plan, record: bytes)
    requires |record| >= 5
  {
    var p := Parse(record);
    && plan.mode == TlsRf && !plan.blocked
    && p.error.None? && (plan.tls13Only ==> p.found.hasKeyShare)
    && p.found.sniStart > 0 && p.found.sniLen > 0 && !p.found.hasECH
    && (CutLegal(record, None);
        var m := plan.sniMode(record[p.found.sniStart..p.found.sniStart + p.found.sniLen]);
        m != Some(Block) && m != Some(TlsAlert))
  }

  lemma SplitsForwards(plan: Plan, record: bytes)
    requires |record| >= 5 && Splits(plan, record)
    ensures Judge(plan, record) == Forward(Emit(plan, TlsRf, record))
  {
    hide Parse;
    hide Emit;
    CutLegal(record, None);
    var f := Parse(record).found;
    match plan.sniMode(record[f.sniStart..f.sniStart + f.sniLen])
    case None =>
    case Some(m) =>
  }

  lemma {:induction false} RepeatsUnparsed(plan: Plan, p: bytes, bs: seq<bytes>)
    requires Repeats(plan, p, bs)
    ensures
      var t := p + Concat(bs);
      |t| >= 5 && |t| >= RecordLen(t) && Judge(plan, t[..RecordLen(t)]).Unparsed?
    decreases |bs|
  {
    hide Judge;
    var q, r := p + bs[0], Concat(bs[1..]);
    assert p + Concat(bs) == q + r;
    if Held(plan, q) {
      RepeatsUnparsed(plan, q, bs[1..]);
    } else {
      HeldPrefix(plan, q, r);
      Stretch(q, r, RecordLen(q));
    }
  }

  lemma FirstRecord(record: bytes, tail: bytes)
    requires IsTls(record) && |record| == 5 + U16At(record, 3)
    ensures
      var t := record + tail;
      IsTls(t) && RecordLen(t) == |record| && t[..|record|] == record && t[|record|..] == tail
  {
    assert U16At(record + tail, 3) == U16At(record, 3);
  }

  /** For every way of cutting the stream into writes: the peer gets records of the
      first record's type and (possibly overridden) version that carry its payload,
      followed by the records of the tail, if and only if not several records with a
      negative segment count are asked for. */
  lemma SplitStreamMeans(plan: Plan, bs: seq<bytes>, record: bytes, tail: bytes)
    requires CompleteRecord(record) && IsTls(record) && Splits(plan, record)
    requires Concat(bs) == record + tail && Decode(tail).Some?
    ensures
      var s := Run(plan, START, bs);
      && s.handled && !s.closed && s.pending == []
      && (MeansThen(s.sent, WithVersion(record, plan.minorVersion)[..3], record[5..], Decode(tail).value) <==>
          !(plan.numRecords > 1 && plan.numSegments < 0))
  {
    var header := WithVersion(record, plan.minorVersion)[..3];
    var t, n := record + tail, |record|;
    SplitsForwards(plan, record);
    SplitsNamed(plan, record);
    FirstRecord(record, tail);
    NotRepeated(plan, bs, record, tail);
    SegmentationIndependent(plan, bs);
    MeaningOfSplit(plan, record, tail);
    EmitPreserves(plan, record);
    EmitDecodes(plan, record);
    MeansThenExactly(Emit(plan, TlsRf, record), tail, header, record[5..]);
    hide Run, Meaning, Emit, Judge, Parse, Splits, Decode, Means, MeansThen, Concat, Repeats;
  }

  lemma SplitsNamed(plan: Plan, record: bytes)
    requires |record| >= 5 && Splits(plan, record)
    ensures Parse(record).found.sniStart > 0 && Parse(record).found.sniLen > 0
  {
    hide Parse;
  }

  lemma NotRepeated(plan: Plan, bs: seq<bytes>, record: bytes, tail: bytes)
    requires CompleteRecord(record) && IsTls(record) && Splits(plan, record) && Concat(bs) == record + tail
    ensures !Repeats(plan, [], bs)
  {
    hide Judge, Emit, Parse, Splits;
    SplitsForwards(plan, record);
    FirstRecord(record, tail);
    assert [] + Concat(bs) == record + tail;
    if Repeats(plan, [], bs) {
      RepeatsUnparsed(plan, [], bs);
    }
  }

  lemma MeaningOfSplit(plan: Plan, record: bytes, tail: bytes)
    requires CompleteRecord(record) && IsTls(record) && Splits(plan, record)
    requires Judge(plan, record) == Forward(Emit(plan, TlsRf, record))
    requires Parse(record).found.sniStart > 0 && Parse(record).found.sniLen > 0
    ensures Meaning(plan, record + tail) == Flight(true, false, [], Emit(plan, TlsRf, record) + tail)
  {
    hide Judge, Emit, Parse;
    FirstRecord(record, tail);
  }

  lemma EmitDecodes(plan: Plan, record: bytes)
    requires CompleteRecord(record) && Parse(record).found.sniStart > 0 && Parse(record).found.sniLen > 0
    ensures Decode(Emit(plan, TlsRf, record)).Some?
  {
    hide Parse, Decode, Sent, FindLastDotOrMidPos;
    CutLegal(record, plan.minorVersion);
    var f, hello := Parse(record).found, WithVersion(record, plan.minorVersion);
    SentDecodes(record, plan.minorVersion, FindLastDotOrMidPos(hello, f.sniStart, f.sniLen), plan.numRecords, plan.numSegments);
  }

  // ----- a hello that loses its first record

  lemma PrintedComplete(minor: byte, h: Hello)
    requires FitsRecord(h)
    ensures CompleteRecord(PrintRecord(minor, h))
  {
    hide PrintRecord, PrintBody, FitsRecord;
    RecordPieces(minor, h);
  }

  /** Every ClientHello of the disguise with a non-empty server name, split as the
      parser's name range says into two records with a negative segment count, reaches
      the peer without its first part. */
  lemma FirstRecordLost(data: bytes, server: bytes, random: bytes, sessionID: bytes)
    requires Fits(data, server) && server != [] && |random| == 32 && |sessionID| == 32
    ensures FitsRecord(HelloOf(data, server, random, sessionID))
    ensures
      var msg := PrintRecord(1, HelloOf(data, server, random, sessionID));
      && CompleteRecord(msg)
      && var f := Parse(msg).found;
         var cut := FindLastDotOrMidPos(msg, f.sniStart, f.sniLen);
         && 5 < cut < |msg|
         && !Means(Sent(msg, cut, 2, -1), msg[..3], msg[5..])
         && Means(Sent(msg, cut, 2, 1), msg[..3], msg[5..])
  {
    hide PrintRecord, Parse, HelloOf, Fits, FitsRecord, Means, Sent, FindLastDotOrMidPos;
    ServerRecovered(data, server, random, sessionID);
    var msg := PrintRecord(1, HelloOf(data, server, random, sessionID));
    PrintedComplete(1, HelloOf(data, server, random, sessionID));
    var f := Parse(msg).found;
    CutLegal(msg, None);
    var cut := FindLastDotOrMidPos(msg, f.sniStart, f.sniLen);
    SplitPreserves(msg, None, cut, 2, -1);
    SplitPreserves(msg, None, cut, 2, 1);
  }
}
