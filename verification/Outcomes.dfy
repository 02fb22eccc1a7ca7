/** What becomes of a connection, told by the fields of its plan and of its first
    record alone: when the adapter refuses it and with which bytes, and what it sends
    otherwise.  All results hold for every way of cutting the stream into writes. */
module Outcomes {
  import opened ClientHello
  import opened Common
  import opened FirstFlight
  import opened HelloRoundTrip
  import opened RecordSplit
  import opened SplitStream
  import opened Wire

  /** One whole TLS record. */
  predicate WholeRecord(record: bytes) {
    |record| >= 5 && record[0] == 0x16 && record[1] == 3 && |record| == 5 + U16At(record, 3)
  }

  /** The record names a server, not under an encrypted ClientHello. */
  predicate InTheClear(f: Found) {
    f.sniStart > 0 && f.sniLen > 0 && !f.hasECH
  }

  /** The mode of the rule for the server that the record names. */
  function RuleMode(plan: Plan, record: bytes): Option<Mode>
    requires |record| >= 5 && InTheClear(Parse(record).found)
  {
    CutLegal(record, None);
    var f := Parse(record).found;
    plan.sniMode(record[f.sniStart..f.sniStart + f.sniLen])
  }

  datatype Refusal = Accepted | Silently | WithAlert(desc: byte)

  /** The policy: blocked plans and rules close silently, the alert mode of a plan or
      rule sends alert 70, and a plan for TLS 1.3 only sends alert 49 to a client that
      offers no key share. */
  function RefusalOf(plan: Plan, record: bytes): Refusal
    requires |record| >= 5
  {
    var p := Parse(record);
    if plan.blocked || plan.mode == Block then Silently
    else if plan.mode == RawMode || p.error.Some? then Accepted
    else if plan.mode == TlsAlert then WithAlert(70)
    else if plan.tls13Only && !p.found.hasKeyShare then WithAlert(49)
    else if InTheClear(p.found) && RuleMode(plan, record) == Some(Block) then Silently
    else if InTheClear(p.found) && RuleMode(plan, record) == Some(TlsAlert) then WithAlert(70)
    else Accepted
  }

  /** A connection is refused exactly in these cases. */
  lemma RefusedExactly(plan: Plan, record: bytes)
    requires |record| >= 5
    ensures
      var p := Parse(record);
      RefusalOf(plan, record) != Accepted <==>
      || plan.blocked || plan.mode == Block
      || (plan.mode != RawMode && p.error.None? &&
          (|| plan.mode == TlsAlert
           || (plan.tls13Only && !p.found.hasKeyShare)
           || (InTheClear(p.found) && RuleMode(plan, record) in {Some(Block), Some(TlsAlert)})))
    ensures
      var p, r := Parse(record), RefusalOf(plan, record);
      && (plan.blocked || plan.mode == Block ==> r == Silently)
      && (!plan.blocked && plan.mode == TlsAlert && p.error.None? ==> r == WithAlert(70))
      && (r == WithAlert(49) <==>
            && !plan.blocked && plan.mode !in {Block, RawMode, TlsAlert} && p.error.None?
            && plan.tls13Only && !p.found.hasKeyShare)
      && (r != Accepted && !plan.blocked && plan.mode !in {Block, TlsAlert} && r != WithAlert(49) ==>
            InTheClear(p.found) && r == if RuleMode(plan, record) == Some(Block) then Silently else WithAlert(70))
  {
    hide Parse, RuleMode;
  }

  /** The verdict on a record, for plans that look at records at all. */
  lemma JudgeByFields(plan: Plan, record: bytes)
    requires |record| >= 5 && !plan.blocked && plan.mode != Block && plan.mode != RawMode
    ensures
      var p := Parse(record);
      match RefusalOf(plan, record)
      case Silently => Judge(plan, record) == Refuse([])
      case WithAlert(d) =>
        |p.version| == 2 && Judge(plan, record) == Refuse([0x15, p.version[0], p.version[1], 0, 2, 2, d])
      case Accepted =>
        && (p.error.Some? ==> Judge(plan, record) == Unparsed)
        && (p.error.None? && !(plan.mode == TlsRf && InTheClear(p.found)) ==> Judge(plan, record) == Forward(record))
        && (p.error.None? && plan.mode == TlsRf && InTheClear(p.found) ==>
              Judge(plan, record) == Forward(Emit(plan, TlsRf, record)))
  {
    hide Parse, Emit;
    var p := Parse(record);
    if plan.mode != TlsRf {
      EmitWhole(plan, plan.mode, record);
    }
    if p.error.None? {
      ParsedVersion(record);
      if InTheClear(p.found) {
        CutLegal(record, None);
        match plan.sniMode(record[p.found.sniStart..p.found.sniStart + p.found.sniLen])
        case None =>
        case Some(m) =>
      }
    }
  }

  lemma MeaningOfRecord(plan: Plan, record: bytes, tail: bytes)
    requires WholeRecord(record) && !plan.blocked && plan.mode != Block && plan.mode != RawMode
    ensures Meaning(plan, record + tail) ==
      match Judge(plan, record)
      case Unparsed => Flight(true, false, [], record + tail)
      case Refuse(alert) => Flight(false, true, record + tail, alert)
      case Forward(out) => Flight(true, false, [], out + tail)
  {
    hide Judge;
    FirstRecord(record, tail);
  }

  lemma RepeatsOnlyUnparsed(plan: Plan, bs: seq<bytes>, record: bytes, tail: bytes)
    requires WholeRecord(record) && Concat(bs) == record + tail && Repeats(plan, [], bs)
    ensures !plan.blocked && plan.mode != Block && plan.mode != RawMode && Parse(record).error.Some?
  {
    hide Parse, Emit;
    assert [] + Concat(bs) == record + tail;
    FirstRecord(record, tail);
    RepeatsUnparsed(plan, [], bs);
    RepeatsMode(plan, [], bs);
    UnparsedMeans(plan, record);
  }

  lemma UnparsedMeans(plan: Plan, record: bytes)
    requires |record| >= 5 && Judge(plan, record).Unparsed?
    ensures Parse(record).error.Some?
  {
    hide Parse, Emit;
  }

  lemma {:induction false} RepeatsMode(plan: Plan, p: bytes, bs: seq<bytes>)
    requires Repeats(plan, p, bs)
    ensures !plan.blocked && plan.mode != Block && plan.mode != RawMode
    decreases |bs|
  {
    hide Judge;
    if Held(plan, p + bs[0]) {
      RepeatsMode(plan, p + bs[0], bs[1..]);
    }
  }

  /** The outcome of a stream that begins with a whole record, however it is cut into
      writes: closed exactly when the policy refuses it, with the bytes of the refusal;
      otherwise handed over, with the record unchanged unless it is to be split. */
  lemma FirstRecordOutcome(plan: Plan, bs: seq<bytes>, record: bytes, tail: bytes)
    requires WholeRecord(record) && Concat(bs) == record + tail
    ensures
      var s, p := Run(plan, START, bs), Parse(record);
      && (s.closed <==> RefusalOf(plan, record) != Accepted)
      && (RefusalOf(plan, record) == Silently ==> s.sent == [])
      && (RefusalOf(plan, record).WithAlert? ==>
            |p.version| == 2 && s.sent == [0x15, p.version[0], p.version[1], 0, 2, 2, RefusalOf(plan, record).desc])
      && (RefusalOf(plan, record) == Accepted ==>
            && s.handled && s.pending == []
            && (plan.mode == RawMode ==> s.sent == record + tail)
            && (plan.mode != RawMode && p.error.Some? && !Repeats(plan, [], bs) ==> s.sent == record + tail)
            && (plan.mode != RawMode && p.error.None? && !(plan.mode == TlsRf && InTheClear(p.found)) ==>
                  s.sent == record + tail)
            && (p.error.None? && plan.mode == TlsRf && InTheClear(p.found) ==>
                  s.sent == Emit(plan, TlsRf, record) + tail))
  {
    hide Judge, Parse, Emit, Run, RefusalOf, Concat, Repeats, Meaning;
    var t := record + tail;
    assert [] + t == t;
    assert Held(plan, []);
    if plan.blocked || plan.mode == Block || plan.mode == RawMode {
      ByMode(plan, bs, t);
      RefusalByMode(plan, record);
    } else {
      JudgeByFields(plan, record);
      MeaningOfRecord(plan, record, tail);
      if Repeats(plan, [], bs) {
        RunFromHeld(plan, [], bs);
        RepeatsOnlyUnparsed(plan, bs, record, tail);
        RefusalUnparsed(plan, record);
        RepeatedHandled(plan, [], bs);
      } else {
        SegmentationIndependent(plan, bs);
      }
    }
  }

  lemma RefusalUnparsed(plan: Plan, record: bytes)
    requires |record| >= 5 && Parse(record).error.Some? && !plan.blocked && plan.mode != Block
    ensures RefusalOf(plan, record) == Accepted
  {
    hide Parse;
  }

  lemma RefusalByMode(plan: Plan, record: bytes)
    requires |record| >= 5
    ensures plan.blocked || plan.mode == Block ==> RefusalOf(plan, record) == Silently
    ensures !plan.blocked && plan.mode == RawMode ==> RefusalOf(plan, record) == Accepted
  {
    hide Parse;
  }

  lemma {:induction false} RepeatedHandled(plan: Plan, p: bytes, bs: seq<bytes>)
    requires Held(plan, p) && Repeats(plan, p, bs)
    ensures Run(plan, Flight(false, false, p, []), bs).handled
    decreases |bs|
  {
    hide Judge;
    var q := p + bs[0];
    if Held(plan, q) {
      RepeatedHandled(plan, q, bs[1..]);
    } else {
      Released(plan, q, bs[1..]);
    }
  }

  /** Plans that do not look at the bytes: blocked ones close on the first of them and
      send nothing, raw ones pass everything. */
  lemma ByMode(plan: Plan, bs: seq<bytes>, t: bytes)
    requires Concat(bs) == t && t != [] && (plan.blocked || plan.mode == Block || plan.mode == RawMode)
    ensures
      var s := Run(plan, START, bs);
      && (s.closed <==> plan.blocked || plan.mode == Block)
      && (s.closed ==> s.sent == [])
      && (!s.closed ==> s.handled && s.pending == [] && s.sent == t)
  {
    hide Judge, Run, Concat;
    if Repeats(plan, [], bs) {
      RepeatsMode(plan, [], bs);
    }
    SegmentationIndependent(plan, bs);
  }

  /** Anything that does not begin like a TLS record is passed on by every plan that is
      not blocked. */
  lemma NonTlsPassed(plan: Plan, bs: seq<bytes>, t: bytes)
    requires Concat(bs) == t && |t| >= 5 && !(t[0] == 0x16 && t[1] == 3) && !plan.blocked && plan.mode != Block
    ensures
      var s := Run(plan, START, bs);
      !s.closed && s.handled && s.pending == [] && s.sent == t
  {
    hide Judge, Run, Concat, Meaning, Repeats;
    assert [] + Concat(bs) == t;
    MeaningNonTls(plan, t);
    if Repeats(plan, [], bs) {
      RepeatsTls(plan, [], bs);
    }
    SegmentationIndependent(plan, bs);
  }

  lemma MeaningNonTls(plan: Plan, t: bytes)
    requires |t| >= 5 && !(t[0] == 0x16 && t[1] == 3) && !plan.blocked && plan.mode != Block
    ensures !IsTls(t) && Meaning(plan, t) == Flight(true, false, [], t)
  {
    hide Judge;
  }

  lemma {:induction false} RepeatsTls(plan: Plan, p: bytes, bs: seq<bytes>)
    requires Repeats(plan, p, bs)
    ensures IsTls(p + Concat(bs))
    decreases |bs|
  {
    hide Judge;
    var q, r := p + bs[0], Concat(bs[1..]);
    assert p + Concat(bs) == q + r;
    if Held(plan, q) {
      RepeatsTls(plan, q, bs[1..]);
    } else {
      HeldPrefix(plan, q, r);
    }
  }
}
