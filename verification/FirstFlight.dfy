/** The first-flight adapter of core/tun_bridge.go: it holds back the bytes of a
    connection until the first TLS record is complete, decides what to do with
    that record, and passes everything after it through. */
module FirstFlight {
  import opened ClientHello
  import opened Common
  import opened HelloRoundTrip
  import opened RecordSplit
  import opened Wire

  datatype Mode = Unset | RawMode | Direct | TlsRf | Block | TlsAlert

  /** The dial plan; sniMode is the mode of the domain rule matching a name. */
  datatype Plan = Plan(blocked: bool, mode: Mode, tls13Only: bool, numRecords: int, numSegments: int,
                       minorVersion: Option<byte>, sniMode: bytes -> Option<Mode>)

  function Alert(version: bytes, desc: byte): bytes
    requires |version| == 2
  {
    [0x15, version[0], version[1], 0, 2, 2, desc]
  }

  /** What happens to the first record. */
  datatype Verdict = Unparsed | Refuse(alert: bytes) | Forward(out: bytes)

  lemma ParsedVersion(record: bytes)
    requires |record| >= 5 && Parse(record).error.None?
    ensures |Parse(record).version| == 2
  {
  }

  lemma CutLegal(record: bytes, minor: Option<byte>)
    requires |record| >= 5 && Parse(record).found.sniStart > 0 && Parse(record).found.sniLen > 0
    ensures
      var f := Parse(record).found;
      && 0 <= f.sniStart <= f.sniStart + f.sniLen <= |record|
      && 5 < FindLastDotOrMidPos(WithVersion(record, minor), f.sniStart, f.sniLen) < |record|
  {
    hide Parse;
    ParseInBounds(record);
    CutBehindHeader(WithVersion(record, minor), Parse(record).found.sniStart, Parse(record).found.sniLen);
  }

  /** The record as sent in mode m. */
  function Emit(plan: Plan, m: Mode, record: bytes): bytes
    requires |record| >= 5 && (m == TlsRf ==> Parse(record).found.sniStart > 0 && Parse(record).found.sniLen > 0)
  {
    if m == TlsRf then
      CutLegal(record, plan.minorVersion);
      var f, hello := Parse(record).found, WithVersion(record, plan.minorVersion);
      Sent(hello, FindLastDotOrMidPos(hello, f.sniStart, f.sniLen), plan.numRecords, plan.numSegments)
    else record
  }

  function Judge(plan: Plan, record: bytes): Verdict
    requires |record| >= 5
  {
    var p := Parse(record);
    if p.error.Some? then Unparsed
    else
      ParsedVersion(record);
      if plan.mode == TlsAlert then Refuse(Alert(p.version, 70))
      else if plan.tls13Only && !p.found.hasKeyShare then Refuse(Alert(p.version, 49))
      else if p.found.sniStart <= 0 || p.found.sniLen <= 0 || p.found.hasECH then Forward(record)
      else
        CutLegal(record, None);
        match plan.sniMode(record[p.found.sniStart..p.found.sniStart + p.found.sniLen])
        case Some(Block) => Refuse([])
        case Some(TlsAlert) => Refuse(Alert(p.version, 70))
        case _ => Forward(Emit(plan, plan.mode, record))
  }

  /** The state of the adapter and the bytes sent so far. */
  datatype Flight = Flight(handled: bool, closed: bool, pending: bytes, sent: bytes)

  const START := Flight(false, false, [], [])

  predicate IsTls(p: bytes) {
    |p| >= 5 && p[0] == 0x16 && p[1] == 3
  }

  function RecordLen(p: bytes): (n: nat)
    requires |p| >= 5
    ensures n >= 5
  {
    5 + U16At(p, 3)
  }

  predicate Refused(plan: Plan) {
    plan.blocked || plan.mode == Block
  }

  /** These bytes are held back. */
  predicate Held(plan: Plan, p: bytes) {
    p == [] || (!Refused(plan) && plan.mode != RawMode && (|p| < 5 || (IsTls(p) && |p| < RecordLen(p))))
  }

  /** tryHandlePending, without write errors. */
  function Try(plan: Plan, s: Flight): Flight {
    var p := s.pending;
    if Held(plan, p) then s
    else if Refused(plan) then s.(closed := true)
    else if plan.mode == RawMode || !IsTls(p) then Flight(true, s.closed, [], s.sent + p)
    else
      var record, tail := p[..RecordLen(p)], p[RecordLen(p)..];
      match Judge(plan, record)
      case Unparsed => Flight(true, s.closed, [], s.sent + p + tail)
      case Refuse(alert) => Flight(s.handled, true, p, s.sent + alert)
      case Forward(out) => Flight(true, s.closed, [], s.sent + out + tail)
  }

  /** One Write, without write errors. */
  function Next(plan: Plan, s: Flight, b: bytes): Flight {
    if s.closed then s
    else if s.handled then s.(sent := s.sent + b)
    else Try(plan, s.(pending := s.pending + b))
  }

  function Run(plan: Plan, s: Flight, bs: seq<bytes>): Flight
    decreases |bs|
  {
    if bs == [] then s else Run(plan, Next(plan, s, bs[0]), bs[1..])
  }

  // ----- the meaning of a stream, however it is cut

  /** What a caller can observe. */
  predicate Same(a: Flight, b: Flight) {
    a.closed == b.closed && a.sent == b.sent && (!a.closed ==> a == b)
  }

  /** What becomes of the bytes t written so far. */
  function Meaning(plan: Plan, t: bytes): Flight {
    if Held(plan, t) then Flight(false, false, t, [])
    else if Refused(plan) then Flight(false, true, t, [])
    else if plan.mode == RawMode || !IsTls(t) then Flight(true, false, [], t)
    else
      var record, tail := t[..RecordLen(t)], t[RecordLen(t)..];
      match Judge(plan, record)
      case Unparsed => Flight(true, false, [], t)
      case Refuse(alert) => Flight(false, true, t, alert)
      case Forward(out) => Flight(true, false, [], out + tail)
  }

  /** The write that completes the first record also carries bytes beyond it, and
      the record does not parse. */
  predicate Repeats(plan: Plan, p: bytes, bs: seq<bytes>)
    decreases |bs|
  {
    bs != [] &&
    var q := p + bs[0];
    if Held(plan, q) then Repeats(plan, q, bs[1..])
    else
      && !Refused(plan) && plan.mode != RawMode && IsTls(q)
      && Judge(plan, q[..RecordLen(q)]).Unparsed? && |q| > RecordLen(q)
  }

  lemma {:induction false} RunClosed(plan: Plan, s: Flight, bs: seq<bytes>)
    requires s.closed
    ensures Run(plan, s, bs) == s
    decreases |bs|
  {
    if bs != [] {
      RunClosed(plan, s, bs[1..]);
    }
  }

  lemma {:induction false} RunHandled(plan: Plan, s: Flight, bs: seq<bytes>)
    requires s.handled && !s.closed
    ensures Run(plan, s, bs) == s.(sent := s.sent + Concat(bs))
    decreases |bs|
  {
    if bs == [] {
      assert s.sent + [] == s.sent;
    } else {
      RunHandled(plan, Next(plan, s, bs[0]), bs[1..]);
      assert (s.sent + bs[0]) + Concat(bs[1..]) == s.sent + Concat(bs);
    }
  }

  lemma HeldPrefix(plan: Plan, q: bytes, r: bytes)
    requires !Held(plan, q)
    ensures !Held(plan, q + r)
    ensures |q| >= 5 ==> IsTls(q + r) == IsTls(q) && RecordLen(q + r) == RecordLen(q)
    ensures IsTls(q) ==> |q| >= RecordLen(q) || Refused(plan) || plan.mode == RawMode
    ensures !Refused(plan) && plan.mode != RawMode ==> |q| >= 5
  {
  }

  lemma Stretch(q: bytes, r: bytes, n: nat)
    requires n <= |q|
    ensures (q + r)[..n] == q[..n] && (q + r)[n..] == q[n..] + r
  {
  }

  /** One write that ends the holding back, and everything after it. */
  lemma Released(plan: Plan, q: bytes, bs: seq<bytes>)
    requires !Held(plan, q)
    ensures
      var s := Run(plan, Try(plan, Flight(false, false, q, [])), bs);
      var m := Meaning(plan, q + Concat(bs));
      if !Refused(plan) && plan.mode != RawMode && IsTls(q) && Judge(plan, q[..RecordLen(q)]).Unparsed?
      then s == Flight(true, false, [], q + q[RecordLen(q)..] + Concat(bs)) && m == Flight(true, false, [], q + Concat(bs))
      else Same(s, m)
  {
    hide Judge, Run, Concat;
    var r := Concat(bs);
    var s := Try(plan, Flight(false, false, q, []));
    HeldPrefix(plan, q, r);
    if s.closed { RunClosed(plan, s, bs); } else { RunHandled(plan, s, bs); }
    if !Refused(plan) && plan.mode != RawMode && IsTls(q) {
      var n := RecordLen(q);
      Stretch(q, r, n);
      var j := Judge(plan, q[..n]);
      if j.Forward? {
        assert j.out + q[n..] + r == j.out + (q[n..] + r);
      }
    }
  }

  lemma {:induction false} RunFromHeld(plan: Plan, p: bytes, bs: seq<bytes>)
    requires Held(plan, p)
    ensures
      var s := Run(plan, Flight(false, false, p, []), bs);
      var t := p + Concat(bs);
      && (!Repeats(plan, p, bs) ==> Same(s, Meaning(plan, t)))
      && (Repeats(plan, p, bs) ==> !s.closed && s.pending == [] && |s.sent| > |t| && t == Meaning(plan, t).sent)
    decreases |bs|
  {
    hide Judge;
    if bs == [] {
      assert p + [] == p;
    } else {
      var q := p + bs[0];
      assert p + Concat(bs) == q + Concat(bs[1..]);
      if Held(plan, q) {
        RunFromHeld(plan, q, bs[1..]);
      } else {
        Released(plan, q, bs[1..]);
        if !Refused(plan) && plan.mode != RawMode && IsTls(q) {
          HeldPrefix(plan, q, []);
          assert |q| == RecordLen(q) ==> q[RecordLen(q)..] == [] && q + [] == q;
        }
      }
    }
  }

  /** Segmentation does not matter: unless the first record fails to parse and
      was completed by a write with bytes to spare, the outcome depends only on
      the concatenation of the writes. */
  lemma SegmentationIndependent(plan: Plan, bs: seq<bytes>)
    requires !Repeats(plan, [], bs)
    ensures Same(Run(plan, START, bs), Meaning(plan, Concat(bs)))
  {
    assert [] + Concat(bs) == Concat(bs);
    RunFromHeld(plan, [], bs);
  }

  lemma ForwardsUnchanged(plan: Plan, record: bytes)
    requires (plan.mode == RawMode || plan.mode == Direct) && |record| >= 5
    ensures Judge(plan, record).Forward? ==> Judge(plan, record).out == record
  {
    hide Parse;
  }

  lemma MeaningConserves(plan: Plan, t: bytes)
    requires plan.mode == RawMode || plan.mode == Direct
    ensures !Meaning(plan, t).closed ==> Meaning(plan, t).sent + Meaning(plan, t).pending == t
  {
    hide Judge;
    if !Held(plan, t) && !Refused(plan) && plan.mode != RawMode && IsTls(t) {
      var n := RecordLen(t);
      ForwardsUnchanged(plan, t[..n]);
      assert t[..n] + t[n..] == t;
    }
  }

  /** In raw and direct mode, while the connection is not closed by policy, no
      byte is lost, repeated or reordered, exactly unless the excluded case occurs. */
  lemma BytesConserved(plan: Plan, bs: seq<bytes>)
    requires plan.mode == RawMode || plan.mode == Direct
    requires !Run(plan, START, bs).closed
    ensures
      var s := Run(plan, START, bs);
      s.sent + s.pending == Concat(bs) <==> !Repeats(plan, [], bs)
  {
    assert Held(plan, []);
    hide Judge, Meaning, Repeats, Run, Concat, Held;
    var t := Concat(bs);
    assert [] + t == t;
    RunFromHeld(plan, [], bs);
    MeaningConserves(plan, t);
  }

  lemma MeaningHeld(plan: Plan, t: bytes)
    ensures
      var s := Meaning(plan, t);
      !s.closed && s.pending != [] ==>
        s.pending == t && s.sent == [] && (|t| < 5 || (IsTls(t) && |t| < RecordLen(t)))
  {
    hide Judge;
  }

  /** What is held back is less than a record header or a proper prefix of the
      first record. */
  lemma HeldBack(plan: Plan, bs: seq<bytes>)
    ensures
      var s := Run(plan, START, bs);
      !s.closed && s.pending != [] ==>
        && s.pending == Concat(bs) && s.sent == []
        && (|s.pending| < 5 || (IsTls(s.pending) && |s.pending| < RecordLen(s.pending)))
  {
    assert Held(plan, []);
    hide Judge, Meaning, Run, Repeats, Held, Concat;
    assert [] + Concat(bs) == Concat(bs);
    RunFromHeld(plan, [], bs);
    MeaningHeld(plan, Concat(bs));
  }

  lemma {:induction false} RunAppend(plan: Plan, s: Flight, a: seq<bytes>, b: seq<bytes>)
    ensures Run(plan, s, a + b) == Run(plan, Run(plan, s, a), b)
    decreases |a|
  {
    if a == [] {
      assert a + b == b;
    } else {
      assert (a + b)[1..] == a[1..] + b;
      RunAppend(plan, Next(plan, s, a[0]), a[1..], b);
    }
  }

  /** After close nothing is forwarded. */
  lemma ClosedForGood(plan: Plan, a: seq<bytes>, b: seq<bytes>)
    requires Run(plan, START, a).closed
    ensures Run(plan, START, a + b) == Run(plan, START, a)
  {
    RunAppend(plan, START, a, b);
    RunClosed(plan, Run(plan, START, a), b);
  }

  // ----- the two remaining corners

  lemma ShortUnparsed(plan: Plan)
    ensures Judge(plan, [0x16, 3, 1, 0, 0]).Unparsed?
  {
    var b: bytes := [0x16, 3, 1, 0, 0];
    assert U16At(b, 3) == 0;
    assert Parse(b).error == Some(HandshakeTooShort);
  }

  /** The excluded case exists: six bytes are sent as seven. */
  lemma TailRepeated(plan: Plan)
    requires plan.mode == Direct && !plan.blocked
    ensures
      var b: bytes := [0x16, 3, 1, 0, 0, 9];
      Repeats(plan, [], [b]) && Run(plan, START, [b]).sent == b + [9]
  {
    var b: bytes := [0x16, 3, 1, 0, 0, 9];
    ShortUnparsed(plan);
    assert b[..5] == [0x16, 3, 1, 0, 0] && b[5..] == [9];
    assert U16At(b, 3) == 0;
    hide Judge, U16At;
    assert [] + b == b;
    assert IsTls(b) && RecordLen(b) == 5 && !Held(plan, b);
    assert Next(plan, START, b).sent == [] + b + [9];
    assert [b][1..] == [];
  }

  /** A record forwarded in split mode still means the same to the peer, exactly
      unless it was sent as several records without segments. */
  lemma EmitPreserves(plan: Plan, record: bytes)
    requires CompleteRecord(record) && Parse(record).found.sniStart > 0 && Parse(record).found.sniLen > 0
    ensures
      var header := WithVersion(record, plan.minorVersion)[..3];
      Means(Emit(plan, TlsRf, record), header, record[5..]) <==> !(plan.numRecords > 1 && plan.numSegments < 0)
  {
    hide Parse, Means, Sent, FindLastDotOrMidPos;
    CutLegal(record, plan.minorVersion);
    var f, hello := Parse(record).found, WithVersion(record, plan.minorVersion);
    SplitPreserves(record, plan.minorVersion, FindLastDotOrMidPos(hello, f.sniStart, f.sniLen), plan.numRecords, plan.numSegments);
  }

  // ----- the adapter as an object

  /** The outgoing connection.  Write number k fails when fault(k) says so, after
      that many bytes were accepted. */
  class Conn {
    const fault: nat -> Option<nat>
    var count: nat
    var sent: bytes
    var failed: bool

    constructor (fault: nat -> Option<nat>)
      ensures sent == [] && !failed && count == 0 && this.fault == fault
    {
      this.fault := fault;
      count, sent, failed := 0, [], false;
    }

    method Write(b: bytes) returns (ok: bool)
      modifies this
      ensures ok == fault(old(count)).None? && count == old(count) + 1
      ensures failed == (old(failed) || !ok)
      ensures old(sent) <= sent <= old(sent) + b
      ensures ok ==> sent == old(sent) + b
    {
      var f := fault(count);
      count := count + 1;
      if f.None? {
        sent := sent + b;
        return true;
      }
      var k := if f.value < |b| then f.value else |b|;
      sent := sent + b[..k];
      failed := true;
      return false;
    }
  }

  class TunPolicyConn {
    const conn: Conn
    const plan: Plan
    var handled: bool
    var closed: bool
    var pending: bytes

    ghost function State(): Flight
      reads this, conn
    {
      Flight(handled, closed, pending, conn.sent)
    }

    constructor (conn: Conn, plan: Plan)
      ensures this.conn == conn && this.plan == plan
      ensures !handled && !closed && pending == []
    {
      this.conn, this.plan := conn, plan;
      handled, closed, pending := false, false, [];
    }

    /** Without a write error the adapter does what Next says; after close it
        writes nothing, and the first error before the hand-over closes it. */
    method Write(b: bytes) returns (ok: bool)
      modifies this, conn
      ensures !conn.failed ==> State() == Next(plan, old(State()), b)
      ensures old(closed) ==> !ok && conn.sent == old(conn.sent) && conn.count == old(conn.count)
      ensures conn.failed && !old(conn.failed) && !old(handled) ==> closed
      ensures !old(closed) && (!conn.failed || !old(handled)) ==> ok
    {
      if closed {
        return false;
      }
      if handled {
        ok := conn.Write(b);
        return;
      }
      pending := pending + b;
      var done := TryHandlePending();
      return true;
    }

    method TryHandlePending() returns (done: bool)
      requires !handled && !closed
      modifies this, conn
      ensures !conn.failed ==> State() == Try(plan, old(State()))
      ensures conn.failed && !old(conn.failed) ==> closed
    {
      hide Judge;
      if |pending| == 0 {
        return false;
      }
      if plan.blocked || plan.mode == Block {
        closed := true;
        return true;
      }
      if plan.mode == RawMode {
        var ok := FlushPending();
        closed := !ok;
        return true;
      }
      if |pending| < 5 {
        return false;
      }
      if pending[0] == 0x16 && pending[1] == 3 {
        var recordLen := 5 + U16At(pending, 3);
        if |pending| < recordLen {
          return false;
        }
        var record := pending[..recordLen];
        var tail := pending[recordLen..];
        var ok := HandleTls(record);
        if !ok {
          closed := true;
          return true;
        }
        handled := true;
        pending := [];
        if |tail| > 0 {
          ok := conn.Write(tail);
          if !ok {
            closed := true;
          }
        }
        return true;
      }
      handled := true;
      var ok := FlushPending();
      closed := !ok;
      return true;
    }

    method FlushPending() returns (ok: bool)
      modifies this, conn
      ensures ok ==> handled && pending == [] && conn.sent == old(conn.sent) + old(pending) && conn.failed == old(conn.failed)
      ensures !ok ==> conn.failed
      ensures closed == old(closed)
    {
      if |pending| == 0 {
        handled := true;
        assert conn.sent == conn.sent + [];
        return true;
      }
      ok := conn.Write(pending);
      if !ok {
        return false;
      }
      handled := true;
      pending := [];
      return true;
    }

    /** Writes each packet until one fails. */
    method WriteAll(packets: seq<bytes>) returns (ok: bool)
      modifies conn
      ensures ok ==> conn.sent == old(conn.sent) + Concat(packets) && conn.failed == old(conn.failed)
      ensures !ok ==> conn.failed
    {
      ghost var start := conn.sent;
      assert start + [] == start;
      for i := 0 to |packets|
        invariant conn.sent == start + Concat(packets[..i]) && conn.failed == old(conn.failed)
      {
        ok := conn.Write(packets[i]);
        if !ok {
          return false;
        }
        assert packets[..i + 1] == packets[..i] + [packets[i]];
        ConcatSnoc(packets[..i], packets[i]);
        assert (start + Concat(packets[..i])) + packets[i] == start + (Concat(packets[..i]) + packets[i]);
      }
      assert packets[..|packets|] == packets;
      return true;
    }

    method SendAlert(version: bytes, desc: byte)
      requires |version| == 2
      modifies conn
      ensures !conn.failed ==> conn.sent == old(conn.sent) + Alert(version, desc)
      ensures old(conn.failed) ==> conn.failed
    {
      var ok := conn.Write([0x15, version[0], version[1], 0, 2, 2, desc]);
    }

    /** What the caller of HandleTls relies on, by verdict. */
    ghost predicate Obeyed(v: Verdict, before: bytes, waiting: bytes, ok: bool)
      reads this, conn
    {
      match v
      case Unparsed => ok && conn.sent == before + waiting
      case Refuse(alert) => !ok && !handled && pending == waiting && conn.sent == before + alert
      case Forward(out) => ok && conn.sent == before + out
    }

    method HandleTls(record: bytes) returns (ok: bool)
      requires |record| >= 5 && !handled && !closed
      modifies this, conn
      ensures ok ==> !closed && conn.failed == old(conn.failed)
      ensures !conn.failed ==> Obeyed(Judge(plan, record), old(conn.sent), old(pending), ok)
      ensures conn.failed && !old(conn.failed) ==> !ok
    {
      hide Parse, Emit, FindLastDotOrMidPos;
      var p := ParseClientHello(record);
      if p.error.Some? {
        ok := FlushPending();
        return;
      }
      ParsedVersion(record);
      if plan.mode == TlsAlert {
        closed := true;
        SendAlert(p.version, 70);
        return false;
      }
      if plan.tls13Only && !p.found.hasKeyShare {
        closed := true;
        SendAlert(p.version, 49);
        return false;
      }
      var mode := plan.mode;
      if p.found.sniStart <= 0 || p.found.sniLen <= 0 {
        mode := Direct;
      } else if p.found.hasECH {
        mode := Direct;
      } else {
        CutLegal(record, None);
        var name := record[p.found.sniStart..p.found.sniStart + p.found.sniLen];
        match plan.sniMode(name) {
          case Some(Block) =>
            closed := true;
            assert conn.sent == conn.sent + [];
            return false;
          case Some(TlsAlert) =>
            closed := true;
            SendAlert(p.version, 70);
            return false;
          case _ =>
        }
      }
      if mode != TlsRf {
        EmitWhole(plan, mode, record);
      }
      ok := ForwardRecord(mode, record, p.found);
    }

    /** Sends the record in the given mode. */
    method ForwardRecord(mode: Mode, record: bytes, f: Found) returns (ok: bool)
      requires |record| >= 5 && f == Parse(record).found && (mode == TlsRf ==> f.sniStart > 0 && f.sniLen > 0)
      modifies conn
      ensures ok ==> conn.failed == old(conn.failed) && conn.sent == old(conn.sent) + Emit(plan, mode, record)
      ensures !ok ==> conn.failed
    {
      hide Parse, Emit, Sent, FindLastDotOrMidPos, WithVersion;
      EmitOf(plan, mode, record);
      if mode == TlsRf {
        var packets := SendRecords(record, f.sniStart, f.sniLen, plan.numRecords, plan.numSegments, plan.minorVersion);
        ok := WriteAll(packets);
      } else {
        ok := conn.Write(record);
      }
    }
  }

  lemma EmitWhole(plan: Plan, m: Mode, record: bytes)
    requires |record| >= 5 && m != TlsRf
    ensures Emit(plan, m, record) == record
  {
  }

  lemma EmitOf(plan: Plan, m: Mode, record: bytes)
    requires |record| >= 5 && (m == TlsRf ==> Parse(record).found.sniStart > 0 && Parse(record).found.sniLen > 0)
    ensures m != TlsRf ==> Emit(plan, m, record) == record
    ensures m == TlsRf ==>
      var f, hello := Parse(record).found, WithVersion(record, plan.minorVersion);
      var cut := FindLastDotOrMidPos(hello, f.sniStart, f.sniLen);
      5 <= cut <= |hello| && Emit(plan, m, record) == Sent(hello, cut, plan.numRecords, plan.numSegments)
  {
    if m == TlsRf { CutLegal(record, plan.minorVersion); }
  }
}
