/** The parser of core/tunnel.go on every input: what it accepts is a layout of the
    fields of a ClientHello, and what it reports is read off that layout. */
module HelloAccept {
  import opened ClientHello
  import opened Common
  import opened HelloRoundTrip
  import opened Wire

  // ----- the layout

  /** The fields before the extensions. */
  function PrintFields(h: Hello): bytes
    requires Legal(h)
  {
    h.version + (h.random + ([|h.sessionId| as byte] + (h.sessionId + (U16(|h.suites|) + (h.suites
      + ([|h.compression| as byte] + h.compression))))))
  }

  /** A complete handshake record whose message is a ClientHello and fits the record. */
  predicate HelloRecord(data: bytes)
    requires |data| >= 5
  {
    var n := data[3] as nat * 256 + data[4] as nat;
    && data[0] == 0x16 && data[1] == 3 && n >= 4 && 5 + n <= |data| && data[5] == 1
    && 39 <= 4 + data[6] as nat * 0x1_0000 + data[7] as nat * 256 + data[8] as nat <= n
  }

  /** The extensions es lie at offset i behind their length; up to three bytes of the
      block may be left over. */
  ghost predicate BlockAt(data: bytes, i: nat, es: seq<Extension>) {
    && LegalExtensions(es) && i + 2 <= |data|
    && var n := data[i] as nat * 256 + data[i + 1] as nat;
       && |PrintExtensions(es)| <= n < |PrintExtensions(es)| + 4 && i + 2 + n <= |data|
       && Has(data, i + 2, PrintExtensions(es))
  }

  /** The hello lies at offset 9; it has no extensions when fewer than two bytes follow. */
  ghost predicate LaidOut(data: bytes, h: Hello) {
    && Legal(h) && Has(data, 9, PrintFields(h))
    && var i := 9 + |PrintFields(h)|;
       match h.extensions
       case None => |data| < i + 2
       case Some(es) => BlockAt(data, i, es)
  }

  ghost predicate NamesOk(h: Hello) {
    h.extensions.Some? ==> SniOk(h.extensions.value)
  }

  // ----- the server-name list

  /** The only bodies read are one host_name entry and anything behind it, in a list
      that fills the extension. */
  lemma SniNameExactly(body: bytes, n: nat)
    ensures SniName(body) == Ok(n) <==>
      && 5 + n <= |body| < 0x1_0002
      && body == U16(|body| - 2) + ([0] + (U16(n) + body[5..]))
  {
    if 5 + n <= |body| < 0x1_0002 {
      var rest := body[5..];
      var b := U16(|body| - 2) + ([0] + (U16(n) + rest));
      assert b[0] == U16(|body| - 2)[0] && b[1] == U16(|body| - 2)[1] && b[2] == 0;
      assert b[3] == U16(n)[0] && b[4] == U16(n)[1] && b[5..] == rest;
      U16Unique(body, 0, |body| - 2);
      U16Unique(body, 3, n);
      assert body == [body[0], body[1], body[2], body[3], body[4]] + rest;
      assert b == [b[0], b[1], b[2], b[3], b[4]] + rest;
    }
  }

  lemma U16Unique(data: bytes, i: nat, n: nat)
    requires i + 2 <= |data| && n < 0x1_0000
    ensures U16At(data, i) == n <==> data[i] == U16(n)[0] && data[i + 1] == U16(n)[1]
  {
  }

  lemma HasField(data: bytes, i: nat)
    requires i + 2 <= |data|
    ensures Has(data, i, U16(U16At(data, i)))
  {
    U16Unique(data, i, U16At(data, i));
  }

  /** The range found holds the name inside this extension body. */
  predicate Located(data: bytes, f: Found, body: bytes) {
    && 0 <= f.sniLen && 5 + f.sniLen <= |body| && SniName(body) == Ok(f.sniLen)
    && 46 < f.sniStart && f.sniStart + f.sniLen <= |data|
    && data[f.sniStart..f.sniStart + f.sniLen] == body[5..5 + f.sniLen]
  }

  // ----- the extensions

  /** Scanning the block of es is scanning es, whatever is left over. */
  lemma {:induction false} BlockIsScan(data: bytes, es: seq<Extension>, at: nat, end: nat, f: Found)
    requires LegalExtensions(es) && Has(data, at, PrintExtensions(es))
    requires at + |PrintExtensions(es)| <= end < at + |PrintExtensions(es)| + 4 && end <= |data|
    ensures Extensions(data, at, end, f) == Scan(es, at, f)
    decreases |es|
  {
    hide Has, Step, SniName, U16At;
    if es != [] {
      HeadExtension(data, es, at);
      var e := es[0];
      match Step(f, e.kind, e.body, at + 4) {
        case Err(_) =>
        case Ok(g) => BlockIsScan(data, es[1..], at + 4 + |e.body|, end, g);
      }
    }
  }

  lemma PrintCons(e: Extension, es: seq<Extension>)
    requires LegalExtensions(es) && e.kind < 0x1_0000 && |e.body| < 0x1_0000
    ensures
      var all := [e] + es;
      LegalExtensions(all) && PrintExtensions(all) == U16(e.kind) + (U16(|e.body|) + (e.body + PrintExtensions(es)))
  {
    assert ([e] + es)[1..] == es;
  }

  lemma ConsExtension(data: bytes, at: nat, es: seq<Extension>) returns (all: seq<Extension>)
    requires at + 4 <= |data| && LegalExtensions(es)
    requires Has(data, at + 4 + U16At(data, at + 2), PrintExtensions(es))
    ensures LegalExtensions(all) && Has(data, at, PrintExtensions(all))
    ensures |PrintExtensions(all)| == 4 + U16At(data, at + 2) + |PrintExtensions(es)|
  {
    var kind, n := U16At(data, at), U16At(data, at + 2);
    HasField(data, at);
    HasField(data, at + 2);
    hide Has, U16, U16At;
    HasLength(data, at + 4 + n, PrintExtensions(es));
    HasPiece(data, at + 4, n);
    var body, rest := data[at + 4..at + 4 + n], PrintExtensions(es);
    all := [Extension(kind, body)] + es;
    PrintCons(Extension(kind, body), es);
    hide PrintExtensions;
    HasConcat(data, at + 4, body, rest);
    HasConcat(data, at + 2, U16(n), body + rest);
    HasConcat(data, at, U16(kind), U16(n) + (body + rest));
  }

  /** A block that is scanned without error is the printing of some extensions. */
  lemma {:induction false} ScannedIsBlock(data: bytes, at: nat, end: nat, f: Found) returns (es: seq<Extension>)
    requires at <= end <= |data| && Extensions(data, at, end, f).1.None?
    ensures LegalExtensions(es) && Has(data, at, PrintExtensions(es))
    ensures at + |PrintExtensions(es)| <= end < at + |PrintExtensions(es)| + 4
    decreases end - at
  {
    hide Step, SniName, U16At;
    if at + 4 > end {
      es := [];
      assert data[at..at] == [];
    } else {
      var stop := at + 4 + U16At(data, at + 2);
      var g := Step(f, U16At(data, at), data[at + 4..stop], at + 4).value;
      var rest := ScannedIsBlock(data, stop, end, g);
      es := ConsExtension(data, at, rest);
    }
  }

  // ----- the fields

  lemma FieldsRead(data: bytes, h: Hello)
    requires Legal(h) && Has(data, 9, PrintFields(h))
    ensures 46 <= 9 + |PrintFields(h)| <= |data|
    ensures data[9..11] == h.version && Fields(data) == Ok(9 + |PrintFields(h)|)
  {
    hide Has;
    var c2 := [|h.compression| as byte] + h.compression;
    var c1 := h.suites + c2;
    var c0 := U16(|h.suites|) + c1;
    var b2 := h.sessionId + c0;
    var b1 := [|h.sessionId| as byte] + b2;
    var b0 := h.random + b1;
    HasConcat(data, 9, h.version, b0);
    HasLength(data, 9, h.version);
    HasConcat(data, 11, h.random, b1);
    HasConcat(data, 43, [|h.sessionId| as byte], b2);
    HasLength(data, 43, [|h.sessionId| as byte]);
    HasByte(data, 43, |h.sessionId| as byte);
    HasConcat(data, 44, h.sessionId, c0);
    var s := 44 + |h.sessionId|;
    HasConcat(data, s, U16(|h.suites|), c1);
    HasLength(data, s, U16(|h.suites|));
    HasU16(data, s, |h.suites|);
    HasConcat(data, s + 2, h.suites, c2);
    var c := s + 2 + |h.suites|;
    HasConcat(data, c, [|h.compression| as byte], h.compression);
    HasLength(data, c, [|h.compression| as byte]);
    HasByte(data, c, |h.compression| as byte);
    HasLength(data, c + 1, h.compression);
  }

  lemma HasPiece(data: bytes, i: nat, n: nat)
    requires i + n <= |data|
    ensures Has(data, i, data[i..i + n])
  {
  }

  lemma HasOne(data: bytes, i: nat)
    requires i < |data|
    ensures Has(data, i, [data[i] as nat as byte])
  {
    assert data[i..i + 1] == [data[i]];
  }

  /** The cipher suites, m bytes of them, and the k compression methods, from offset s. */
  lemma HasTail(data: bytes, s: nat, m: nat, k: nat)
    requires s + 2 <= |data| && m == U16At(data, s) && s + 2 + m < |data|
    requires k == data[s + 2 + m] as nat && s + 3 + m + k <= |data|
    ensures
      var c := s + 2 + m;
      Has(data, s, U16(m) + (data[s + 2..s + 2 + m] + ([k as byte] + data[c + 1..c + 1 + k])))
  {
    var c := s + 2 + m;
    HasField(data, s);
    hide Has, U16, U16At;
    HasPiece(data, s + 2, m);
    HasPiece(data, c + 1, k);
    HasOne(data, c);
    HasFour(data, s, U16(m), data[s + 2..s + 2 + m], [k as byte], data[c + 1..c + 1 + k]);
  }

  /** The version, the random and the session id of l bytes, in front of what lies behind them. */
  lemma HasStart(data: bytes, l: nat, rest: bytes)
    requires |data| >= 44 && l == data[43] as nat && 44 + l <= |data| && Has(data, 44 + l, rest)
    ensures Has(data, 9, data[9..11] + (data[11..43] + ([l as byte] + (data[44..44 + l] + rest))))
  {
    hide Has;
    HasPiece(data, 9, 2);
    HasPiece(data, 11, 32);
    HasOne(data, 43);
    HasPiece(data, 44, l);
    var id := data[44..44 + l];
    HasConcat(data, 44, id, rest);
    HasFour(data, 9, data[9..11], data[11..43], [l as byte], id + rest);
  }

  /** Fields that are read without error are the printing of some hello. */
  lemma FieldsLaidOut(data: bytes) returns (h: Hello)
    requires |data| >= 44 && Fields(data).Ok?
    ensures Legal(h) && h.extensions.None? && Has(data, 9, PrintFields(h))
    ensures Fields(data).value == 9 + |PrintFields(h)|
  {
    hide Has, U16, U16At;
    var l := data[43] as nat;
    var s := 44 + l;
    var m := U16At(data, s);
    var c := s + 2 + m;
    var k := data[c] as nat;
    assert Fields(data).value == c + 1 + k <= |data|;
    hide Fields;
    h := Hello(data[9..11], data[11..43], data[44..44 + l], data[s + 2..s + 2 + m], data[c + 1..c + 1 + k], None);
    HasTail(data, s, m, k);
    HasStart(data, l, U16(m) + (h.suites + ([k as byte] + h.compression)));
  }

  lemma HeadersExactly(data: bytes)
    requires |data| >= 5
    ensures Headers(data).None? <==> HelloRecord(data)
  {
  }

  // ----- the whole parser

  /** What the parser does with a hello record in which h is laid out. */
  lemma ParseOfLayout(data: bytes, h: Hello)
    requires |data| >= 5 && HelloRecord(data) && LaidOut(data, h)
    ensures
      Parse(data) ==
        if h.extensions.None? then Parsed(h.version, NOTHING, None)
        else var (f, e) := Scan(h.extensions.value, 9 + |PrintFields(h)| + 2, NOTHING);
             Parsed(h.version, f, e)
  {
    hide *;
    HeadersExactly(data);
    LayoutFields(data, h);
    FieldsRead(data, h);
    var at := 9 + |PrintFields(h)|;
    match h.extensions {
      case None =>
        LayoutShort(data, h);
        ParseShort(data, at);
      case Some(es) =>
        LayoutBlock(data, h);
        ParseBlock(data, at);
        BlockIsScan(data, es, at + 2, at + 2 + U16At(data, at), NOTHING);
    }
  }

  lemma LayoutFields(data: bytes, h: Hello)
    requires LaidOut(data, h)
    ensures Legal(h) && Has(data, 9, PrintFields(h))
  {
  }

  lemma LayoutShort(data: bytes, h: Hello)
    requires LaidOut(data, h) && h.extensions.None?
    ensures |data| < 9 + |PrintFields(h)| + 2
  {
  }

  lemma LayoutBlock(data: bytes, h: Hello)
    requires LaidOut(data, h) && h.extensions.Some?
    ensures
      var es, at := h.extensions.value, 9 + |PrintFields(h)|;
      && LegalExtensions(es) && at + 2 <= |data| && at + 2 + U16At(data, at) <= |data|
      && Has(data, at + 2, PrintExtensions(es))
      && |PrintExtensions(es)| <= U16At(data, at) < |PrintExtensions(es)| + 4
  {
    hide Has, PrintExtensions, PrintFields;
  }

  lemma ParseShort(data: bytes, at: nat)
    requires |data| >= 5 && Headers(data).None? && Fields(data) == Ok(at) && |data| < at + 2 && |data| >= 11
    ensures Parse(data) == Parsed(data[9..11], NOTHING, None)
  {
    hide Headers, Fields;
  }

  lemma ParseBlock(data: bytes, at: nat)
    requires |data| >= 11 && Headers(data).None? && Fields(data) == Ok(at)
    requires at + 2 <= |data| && at + 2 + U16At(data, at) <= |data|
    ensures
      var (f, e) := Extensions(data, at + 2, at + 2 + U16At(data, at), NOTHING);
      Parse(data) == Parsed(data[9..11], f, e)
  {
    hide Headers, Fields, Extensions;
  }

  /** An accepted input lays out a hello. */
  lemma AcceptedLaidOut(data: bytes) returns (h: Hello)
    requires |data| >= 5 && Parse(data).error.None?
    ensures HelloRecord(data) && LaidOut(data, h)
  {
    hide Has, HelloRecord, Headers, Fields, PrintFields, PrintExtensions, Extensions, LegalExtensions, U16At;
    HeadersExactly(data);
    LongEnough(data);
    h := FieldsLaidOut(data);
    var at := 9 + |PrintFields(h)|;
    if at + 2 <= |data| {
      var end := at + 2 + U16At(data, at);
      var es := ScannedIsBlock(data, at + 2, end, NOTHING);
      h := WithExtensions(data, h, es, end - at - 2);
    }
  }

  lemma LongEnough(data: bytes)
    requires |data| >= 5 && HelloRecord(data)
    ensures |data| >= 44
  {
  }

  lemma WithExtensions(data: bytes, h: Hello, es: seq<Extension>, n: nat) returns (g: Hello)
    requires Legal(h) && h.extensions.None? && Has(data, 9, PrintFields(h))
    requires
      var at := 9 + |PrintFields(h)|;
      && at + 2 <= |data| && n == U16At(data, at) && at + 2 + n <= |data|
      && LegalExtensions(es) && |PrintExtensions(es)| <= n < |PrintExtensions(es)| + 4
      && Has(data, at + 2, PrintExtensions(es))
    ensures LaidOut(data, g)
  {
    g := h.(extensions := Some(es));
    assert PrintFields(g) == PrintFields(h);
  }

  /** The parser accepts exactly the hello records that lay out a hello whose server
      name is unique and well formed. */
  lemma AcceptedExactly(data: bytes)
    requires |data| >= 5
    ensures Parse(data).error.None? <==> HelloRecord(data) && exists h :: LaidOut(data, h) && NamesOk(h)
  {
    if Parse(data).error.None? {
      var h := AcceptedLaidOut(data);
      ReportOf(data, h);
    }
    if HelloRecord(data) && exists h :: LaidOut(data, h) && NamesOk(h) {
      var h :| LaidOut(data, h) && NamesOk(h);
      ReportOf(data, h);
    }
  }

  /** What is reported of a hello laid out in the input: no error exactly if its names are
      in order, and then its version, its flags and where its name lies. */
  lemma ReportOf(data: bytes, h: Hello)
    requires |data| >= 5 && HelloRecord(data) && LaidOut(data, h)
    ensures
      var p := Parse(data);
      var es := if h.extensions.Some? then h.extensions.value else [];
      && p.version == h.version
      && (p.error.None? <==> SniOk(es))
      && (p.error.None? ==>
            && (p.found.hasKeyShare <==> HasKind(es, 51))
            && (p.found.hasECH <==> HasKind(es, 254))
            && (p.found.sniStart == -1 <==> NoSni(es))
            && forall i :: 0 <= i < |es| && es[i].kind == 0 ==> Located(data, p.found, es[i].body))
  {
    hide Has, HelloRecord, LaidOut, PrintFields, PrintExtensions, Scan, Parse, SniOk, HasKind;
    ParseOfLayout(data, h);
    NoneThere();
    if h.extensions.Some? {
      var es := h.extensions.value;
      LayoutBlock(data, h);
      LayoutFields(data, h);
      FieldsRead(data, h);
      var at := 9 + |PrintFields(h)| + 2;
      ScanMeaning(es, at, NOTHING);
      if SniOk(es) {
        forall i | 0 <= i < |es| && IsSni(es[i]) ensures Located(data, Scan(es, at, NOTHING).0, es[i].body) {
          NameThere(data, es, at, i);
        }
      }
    }
  }

  lemma NoneThere()
    ensures SniOk([]) && NoSni([]) && !HasKind([], 51) && !HasKind([], 254)
  {
  }

  lemma NameThere(data: bytes, es: seq<Extension>, at: nat, i: nat)
    requires LegalExtensions(es) && Has(data, at, PrintExtensions(es)) && at > 46
    requires SniOk(es) && i < |es| && IsSni(es[i])
    ensures Located(data, Scan(es, at, NOTHING).0, es[i].body)
  {
    hide Scan, PrintExtensions, Has;
    NameLocated(data, es, at, NOTHING, i);
    assert SniName(es[i].body).Ok?;
  }
}
