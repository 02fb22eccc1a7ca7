/** The ClientHello of the TLS obfuscation layer: makeClientHelloMsg prints a
    hello that the ClientHello parser reads back. */
module ObfsHello {
  import opened Bits
  import opened ClientHello
  import opened Common
  import opened HelloRoundTrip
  import opened Wire

  const SUITES: bytes := [
    0xc0, 0x2c, 0xc0, 0x30, 0x00, 0x9f, 0xcc, 0xa9, 0xcc, 0xa8, 0xcc, 0xaa, 0xc0, 0x2b, 0xc0, 0x2f,
    0x00, 0x9e, 0xc0, 0x24, 0xc0, 0x28, 0x00, 0x6b, 0xc0, 0x23, 0xc0, 0x27, 0x00, 0x67, 0xc0, 0x0a,
    0xc0, 0x14, 0x00, 0x39, 0xc0, 0x09, 0xc0, 0x13, 0x00, 0x33, 0x00, 0x9d, 0x00, 0x9c, 0x00, 0x3d,
    0x00, 0x3c, 0x00, 0x35, 0x00, 0x2f, 0x00, 0xff]

  const EC_POINT := Extension(0x0b, [0x03, 0x01, 0x00, 0x02])
  const GROUPS := Extension(0x0a, [0x00, 0x08, 0x00, 0x1d, 0x00, 0x17, 0x00, 0x19, 0x00, 0x18])
  const ALGORITHMS: bytes := [
    0x00, 0x1e, 0x06, 0x01, 0x06, 0x02, 0x06, 0x03, 0x05, 0x01, 0x05, 0x02, 0x05, 0x03, 0x04, 0x01,
    0x04, 0x02, 0x04, 0x03, 0x03, 0x01, 0x03, 0x02, 0x03, 0x03, 0x02, 0x01, 0x02, 0x02, 0x02, 0x03]
  const SIGNATURE := Extension(0x0d, ALGORITHMS)
  const ENCRYPT_THEN_MAC := Extension(0x16, [])
  const EXTENDED_MASTER_SECRET := Extension(0x17, [])

  const FIXED_TAIL: seq<Extension> := [SIGNATURE, ENCRYPT_THEN_MAC, EXTENDED_MASTER_SECRET]
  const FIXED: seq<Extension> := [EC_POINT, GROUPS] + FIXED_TAIL

  /** The lengths the source writes as 16-bit numbers all fit. */
  predicate Fits(data: bytes, server: bytes) {
    212 + |data| + |server| < 0x1_0000
  }

  function ExtensionsOf(data: bytes, server: bytes): seq<Extension>
    requires Fits(data, server)
  {
    [Extension(0x23, data), Extension(SNI, SniBody(server))] + FIXED
  }

  /** The hello with the payload as session ticket and the server as name. */
  function HelloOf(data: bytes, server: bytes, random: bytes, sessionID: bytes): Hello
    requires Fits(data, server)
  {
    Hello([3, 3], random, sessionID, SUITES, [0], Some(ExtensionsOf(data, server)))
  }

  function Piece(e: Extension): bytes
    requires e.kind < 0x1_0000 && |e.body| < 0x1_0000
  {
    U16(e.kind) + (U16(|e.body|) + e.body)
  }

  lemma PrintCons(e: Extension, es: seq<Extension>)
    requires e.kind < 0x1_0000 && |e.body| < 0x1_0000 && LegalExtensions(es)
    ensures LegalExtensions([e] + es)
    ensures PrintExtensions([e] + es) == Piece(e) + PrintExtensions(es)
  {
    assert ([e] + es)[0] == e && ([e] + es)[1..] == es;
    var rest := PrintExtensions(es);
    assert U16(e.kind) + (U16(|e.body|) + (e.body + rest)) == (U16(e.kind) + (U16(|e.body|) + e.body)) + rest;
  }

  /** The bytes the source spells out are the fixed extensions. */
  lemma FixedPieces()
    ensures Piece(EC_POINT) == [0x00, 0x0b, 0x00, 0x04, 0x03, 0x01, 0x00, 0x02]
    ensures Piece(GROUPS) == [0x00, 0x0a, 0x00, 0x0a, 0x00, 0x08, 0x00, 0x1d, 0x00, 0x17, 0x00, 0x19, 0x00, 0x18]
    ensures Piece(ENCRYPT_THEN_MAC) == [0x00, 0x16, 0x00, 0x00]
    ensures Piece(EXTENDED_MASTER_SECRET) == [0x00, 0x17, 0x00, 0x00]
  {
  }

  lemma SignaturePiece()
    ensures Piece(SIGNATURE) == [0x00, 0x0d, 0x00, 0x20] + ALGORITHMS
  {
    var body := ALGORITHMS;
    assert U16(0x0d) == [0x00, 0x0d] && U16(32) == [0x00, 0x20];
    assert [0x00, 0x0d] + ([0x00, 0x20] + body) == [0x00, 0x0d, 0x00, 0x20] + body;
  }

  lemma TailPrinted()
    ensures LegalExtensions(FIXED_TAIL)
    ensures PrintExtensions(FIXED_TAIL) ==
            Piece(SIGNATURE) + (Piece(ENCRYPT_THEN_MAC) + Piece(EXTENDED_MASTER_SECRET))
  {
    hide PrintExtensions;
    var f4 := [EXTENDED_MASTER_SECRET];
    var f3 := [ENCRYPT_THEN_MAC] + f4;
    NothingPrinted();
    assert f4 == [EXTENDED_MASTER_SECRET] + [];
    PrintCons(EXTENDED_MASTER_SECRET, []);
    PrintCons(ENCRYPT_THEN_MAC, f4);
    assert FIXED_TAIL == [SIGNATURE] + f3;
    PrintCons(SIGNATURE, f3);
  }

  lemma FixedPrinted()
    ensures LegalExtensions(FIXED) && LegalExtensions(FIXED_TAIL)
    ensures PrintExtensions(FIXED) == Piece(EC_POINT) + (Piece(GROUPS) + PrintExtensions(FIXED_TAIL))
    ensures |PrintExtensions(FIXED)| == 66
  {
    hide PrintExtensions;
    TailPrinted();
    var f1 := [GROUPS] + FIXED_TAIL;
    PrintCons(GROUPS, FIXED_TAIL);
    assert FIXED == [EC_POINT] + f1;
    PrintCons(EC_POINT, f1);
  }

  lemma NothingPrinted()
    ensures PrintExtensions([]) == []
  {
  }

  lemma ExtensionsPrinted(data: bytes, server: bytes)
    requires Fits(data, server)
    ensures LegalExtensions(ExtensionsOf(data, server)) && LegalExtensions(FIXED)
    ensures PrintExtensions(ExtensionsOf(data, server)) ==
            Piece(Extension(0x23, data)) + (Piece(Extension(SNI, SniBody(server))) + PrintExtensions(FIXED))
    ensures |PrintExtensions(ExtensionsOf(data, server))| == 79 + |data| + |server|
  {
    hide PrintExtensions;
    FixedPrinted();
    var ticket, name := Extension(0x23, data), Extension(SNI, SniBody(server));
    PrintCons(name, FIXED);
    PrintCons(ticket, [name] + FIXED);
    assert ExtensionsOf(data, server) == [ticket] + ([name] + FIXED);
  }

  lemma HelloFits(data: bytes, server: bytes, random: bytes, sessionID: bytes)
    requires Fits(data, server) && |random| == 32 && |sessionID| == 32
    ensures FitsRecord(HelloOf(data, server, random, sessionID))
    ensures |PrintBody(HelloOf(data, server, random, sessionID))| == 208 + |data| + |server|
  {
    hide PrintExtensions;
    ExtensionsPrinted(data, server);
  }

  /** Everything before the extensions; 16-bit lengths wrap around. */
  function Header(n: nat, time: bytes, random: bytes, sessionID: bytes): bytes {
    [22, 3, 1] + (U16((212 + n) % 0x1_0000) + ([1, 0] + (U16((208 + n) % 0x1_0000) + Fields(n, time, random, sessionID))))
  }

  /** From the version on. */
  function Fields(n: nat, time: bytes, random: bytes, sessionID: bytes): bytes {
    [3, 3] + (time + (random + Session(n, sessionID)))
  }

  /** From the session identifier on. */
  function Session(n: nat, sessionID: bytes): bytes {
    [32] + (sessionID + Suites(n))
  }

  /** From the cipher suites on. */
  function Suites(n: nat): bytes {
    [0x00, 0x38] + (SUITES + Compression(n))
  }

  /** Compression methods and the length of the extensions. */
  function Compression(n: nat): bytes {
    [1, 0] + U16((79 + n) % 0x1_0000)
  }

  /** The session ticket and the server name; 16-bit lengths wrap around. */
  function Variable(data: bytes, server: bytes): bytes {
    [0x00, 0x23] + (U16(|data| % 0x1_0000) + (data + ([0x00, 0x00] + (U16((|server| + 5) % 0x1_0000)
      + (U16((|server| + 3) % 0x1_0000) + ([0] + (U16(|server| % 0x1_0000) + server)))))))
  }

  method WriteHeader(n: nat, time: bytes, random: bytes, sessionID: bytes) returns (buf: bytes)
    ensures buf == Header(n, time, random, sessionID)
  {
    var length := (212 + n) % 0x1_0000;
    buf := [22];
    buf := buf + [0x03, 0x01];
    buf := buf + [(length / 256) as byte];
    buf := buf + [(length % 256) as byte];
    assert buf == [22, 3, 1] + U16(length);
    ghost var r7 := Compression(n);
    ghost var r6 := Suites(n);
    ghost var r5 := Session(n, sessionID);
    ghost var r4 := Fields(n, time, random, sessionID);
    ghost var r3 := U16((208 + n) % 0x1_0000) + r4;
    Associative([22, 3, 1], U16(length), [1, 0] + r3);
    ghost var total := Header(n, time, random, sessionID);
    assert total == buf + ([1, 0] + r3);
    Associative(buf, [1, 0], r3);
    buf := buf + [1];
    buf := buf + [0];
    assert total == buf + r3;
    Associative(buf, U16((208 + n) % 0x1_0000), r4);
    buf := buf + U16((208 + n) % 0x1_0000);
    Associative(buf, [0x03, 0x03], time + (random + r5));
    buf := buf + [0x03, 0x03];
    Associative(buf, time, random + r5);
    buf := buf + time;
    Associative(buf, random, r5);
    buf := buf + random;
    Associative(buf, [32], sessionID + r6);
    buf := buf + [32];
    Associative(buf, sessionID, r6);
    buf := buf + sessionID;
    Associative(buf, [0x00, 0x38], SUITES + r7);
    buf := buf + [0x00, 0x38];
    Associative(buf, SUITES, r7);
    buf := buf + SUITES;
    Associative(buf, [0x01, 0x00], U16((79 + n) % 0x1_0000));
    buf := buf + [0x01, 0x00];
    buf := buf + U16((79 + n) % 0x1_0000);
  }

  method WriteVariable(before: bytes, data: bytes, server: bytes) returns (buf: bytes)
    ensures buf == before + Variable(data, server)
  {
    buf := before;
    ghost var r4 := U16(|server| % 0x1_0000) + server;
    ghost var r3 := U16((|server| + 3) % 0x1_0000) + ([0] + r4);
    ghost var r2 := U16((|server| + 5) % 0x1_0000) + r3;
    ghost var r1 := [0x00, 0x00] + r2;
    Associative(buf, [0x00, 0x23], U16(|data| % 0x1_0000) + (data + r1));
    buf := buf + [0x00, 0x23];
    Associative(buf, U16(|data| % 0x1_0000), data + r1);
    buf := buf + U16(|data| % 0x1_0000);
    Associative(buf, data, r1);
    buf := buf + data;
    Associative(buf, [0x00, 0x00], r2);
    buf := buf + [0x00, 0x00];
    Associative(buf, U16((|server| + 5) % 0x1_0000), r3);
    buf := buf + U16((|server| + 5) % 0x1_0000);
    Associative(buf, U16((|server| + 3) % 0x1_0000), [0] + r4);
    buf := buf + U16((|server| + 3) % 0x1_0000);
    Associative(buf, [0], r4);
    buf := buf + [0];
    Associative(buf, U16(|server| % 0x1_0000), server);
    buf := buf + U16(|server| % 0x1_0000);
    buf := buf + server;
  }

  method WriteFixed(before: bytes) returns (buf: bytes)
    ensures LegalExtensions(FIXED) && buf == before + PrintExtensions(FIXED)
  {
    hide PrintExtensions, Piece;
    FixedPrinted();
    TailPrinted();
    FixedPieces();
    SignaturePiece();
    ghost var r4 := Piece(ENCRYPT_THEN_MAC) + Piece(EXTENDED_MASTER_SECRET);
    ghost var r3 := Piece(SIGNATURE) + r4;
    buf := before;
    Associative(buf, Piece(EC_POINT), Piece(GROUPS) + r3);
    buf := buf + [0x00, 0x0b, 0x00, 0x04, 0x03, 0x01, 0x00, 0x02];
    Associative(buf, Piece(GROUPS), r3);
    buf := buf + [0x00, 0x0a, 0x00, 0x0a, 0x00, 0x08, 0x00, 0x1d, 0x00, 0x17, 0x00, 0x19, 0x00, 0x18];
    Associative(buf, Piece(SIGNATURE), r4);
    buf := buf + ([0x00, 0x0d, 0x00, 0x20] + ALGORITHMS);
    Associative(buf, Piece(ENCRYPT_THEN_MAC), Piece(EXTENDED_MASTER_SECRET));
    buf := buf + [0x00, 0x16, 0x00, 0x00];
    buf := buf + [0x00, 0x17, 0x00, 0x00];
  }

  /** makeClientHelloMsg; time and randomness are parameters. */
  method MakeClientHelloMsg(data: bytes, server: bytes, time: bytes, random: bytes, sessionID: bytes) returns (buf: bytes)
    requires |time| == 4 && |random| == 28 && |sessionID| == 32
    ensures Fits(data, server) ==>
      && FitsRecord(HelloOf(data, server, time + random, sessionID))
      && buf == PrintRecord(1, HelloOf(data, server, time + random, sessionID))
  {
    hide PrintExtensions, PrintRecord, Header, Variable, FitsRecord;
    buf := WriteHeader(|data| + |server|, time, random, sessionID);
    ghost var header := buf;
    buf := WriteVariable(buf, data, server);
    buf := WriteFixed(buf);
    Associative(header, Variable(data, server), PrintExtensions(FIXED));
    if Fits(data, server) {
      HelloFits(data, server, time + random, sessionID);
      MessagePrinted(data, server, time, random, sessionID);
    }
  }

  lemma VariablePrinted(data: bytes, server: bytes)
    requires Fits(data, server)
    ensures Variable(data, server) == Piece(Extension(0x23, data)) + Piece(Extension(SNI, SniBody(server)))
  {
    var name := SniBody(server);
    assert U16(0x23) == [0x00, 0x23] && U16(SNI) == [0x00, 0x00];
    assert |name| == |server| + 5;
    Associative(U16(0x23), U16(|data|) + data, Piece(Extension(SNI, name)));
    Associative(U16(|data|), data, Piece(Extension(SNI, name)));
    ModSmall(|data|, 0x1_0000);
    ModSmall(|server| + 5, 0x1_0000);
    ModSmall(|server| + 3, 0x1_0000);
    ModSmall(|server|, 0x1_0000);
    assert (U16(0x23) + (U16(|data|) + data)) + Piece(Extension(SNI, name))
        == U16(0x23) + (U16(|data|) + (data + Piece(Extension(SNI, name))));
  }

  lemma SuitesPrinted(n: nat, exts: bytes)
    requires 79 + n < 0x1_0000
    ensures Suites(n) + exts == U16(|SUITES|) + (SUITES + ([1] + ([0] + (U16(79 + n) + exts))))
  {
    ModSmall(79 + n, 0x1_0000);
    assert |SUITES| == 0x38 && U16(0x38) == [0x00, 0x38];
    var block := U16(79 + n) + exts;
    Associative([1, 0], U16(79 + n), exts);
    assert [1, 0] + block == [1] + ([0] + block);
    Associative(SUITES, Compression(n), exts);
    Associative([0x00, 0x38], SUITES + Compression(n), exts);
  }

  lemma SessionPrinted(n: nat, sessionID: bytes, exts: bytes)
    ensures Session(n, sessionID) + exts == [32] + (sessionID + (Suites(n) + exts))
  {
    hide Suites;
    Associative(sessionID, Suites(n), exts);
    Associative([32], sessionID + Suites(n), exts);
  }

  lemma FieldsPrinted(n: nat, time: bytes, random: bytes, sessionID: bytes, exts: bytes)
    ensures Fields(n, time, random, sessionID) + exts == [3, 3] + ((time + random) + (Session(n, sessionID) + exts))
  {
    hide Session;
    var s := Session(n, sessionID);
    Associative(random, s, exts);
    Associative(time, random + s, exts);
    Associative([3, 3], time + (random + s), exts);
    Associative(time, random, s + exts);
  }

  lemma HeaderPrinted(n: nat, time: bytes, random: bytes, sessionID: bytes, exts: bytes)
    requires 212 + n < 0x1_0000
    ensures Header(n, time, random, sessionID) + exts ==
            [22, 3, 1] + (U16(212 + n) + ([1, 0] + (U16(208 + n) + (Fields(n, time, random, sessionID) + exts))))
  {
    hide Fields;
    var f := Fields(n, time, random, sessionID);
    ModSmall(212 + n, 0x1_0000);
    ModSmall(208 + n, 0x1_0000);
    Associative(U16(208 + n), f, exts);
    Associative([1, 0], U16(208 + n) + f, exts);
    Associative(U16(212 + n), [1, 0] + (U16(208 + n) + f), exts);
    Associative([22, 3, 1], U16(212 + n) + ([1, 0] + (U16(208 + n) + f)), exts);
  }

  /** The fields and the extensions are the body of the hello. */
  lemma BodyPrinted(data: bytes, server: bytes, time: bytes, random: bytes, sessionID: bytes, exts: bytes)
    requires Fits(data, server) && |sessionID| == 32
    requires Legal(HelloOf(data, server, time + random, sessionID))
    requires exts == PrintExtensions(ExtensionsOf(data, server)) && |exts| == 79 + |data| + |server|
    ensures Fields(|data| + |server|, time, random, sessionID) + exts ==
            PrintBody(HelloOf(data, server, time + random, sessionID))
  {
    var n := |data| + |server|;
    hide Fields, Session, Suites, PrintExtensions, Legal, Fits, ExtensionsOf;
    FieldsPrinted(n, time, random, sessionID, exts);
    SessionPrinted(n, sessionID, exts);
    LengthsFit(data, server);
    SuitesPrinted(n, exts);
  }

  lemma LengthsFit(data: bytes, server: bytes)
    requires Fits(data, server)
    ensures 212 + |data| + |server| < 0x1_0000
  {
  }

  lemma MessagePrinted(data: bytes, server: bytes, time: bytes, random: bytes, sessionID: bytes)
    requires Fits(data, server) && |time| == 4 && |random| == 28 && |sessionID| == 32
    requires LegalExtensions(FIXED) && FitsRecord(HelloOf(data, server, time + random, sessionID))
    ensures Header(|data| + |server|, time, random, sessionID) + (Variable(data, server) + PrintExtensions(FIXED))
         == PrintRecord(1, HelloOf(data, server, time + random, sessionID))
  {
    var n, h := |data| + |server|, HelloOf(data, server, time + random, sessionID);
    assert Legal(h);
    hide PrintExtensions, Variable, Piece, FitsRecord, Header, Fields, PrintBody, Legal, LegalExtensions, HelloOf, ExtensionsOf;
    var exts := Variable(data, server) + PrintExtensions(FIXED);
    HelloFits(data, server, time + random, sessionID);
    ExtensionsPrinted(data, server);
    VariablePrinted(data, server);
    Associative(Piece(Extension(0x23, data)), Piece(Extension(SNI, SniBody(server))), PrintExtensions(FIXED));
    assert exts == PrintExtensions(ExtensionsOf(data, server));
    HeaderPrinted(n, time, random, sessionID, exts);
    BodyPrinted(data, server, time, random, sessionID, exts);
    assert Header(n, time, random, sessionID) + exts == PrintRecord(1, h);
  }

  /** The parser recovers the server name from every message whose lengths fit. */
  lemma ServerRecovered(data: bytes, server: bytes, random: bytes, sessionID: bytes)
    requires Fits(data, server) && |random| == 32 && |sessionID| == 32
    ensures FitsRecord(HelloOf(data, server, random, sessionID))
    ensures
      var msg := PrintRecord(1, HelloOf(data, server, random, sessionID));
      var p := Parse(msg);
      && p.error == None && !p.found.hasKeyShare && p.version == [3, 3]
      && 0 < p.found.sniStart && p.found.sniLen == |server| && p.found.sniStart + |server| <= |msg|
      && msg[p.found.sniStart..p.found.sniStart + |server|] == server
  {
    hide PrintRecord, FitsRecord, Parse, SniBody, SniName;
    var h := HelloOf(data, server, random, sessionID);
    HelloFits(data, server, random, sessionID);
    var es := ExtensionsOf(data, server);
    SniBodyName(server);
    assert forall i :: 0 <= i < |es| && IsSni(es[i]) ==> i == 1;
    assert SniOk(es);
    assert !HasKind(es, 51);
    assert es[1] == Extension(SNI, SniBody(server)) && IsSni(es[1]);
    ParseUndoesPrint(1, h);
  }
}
