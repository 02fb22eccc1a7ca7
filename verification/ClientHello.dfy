/** The TLS ClientHello: a printer following section 4.1.2 of RFC 8446 and
    section 3 of RFC 6066, and the parser of core/tunnel.go. */
module ClientHello {
  import opened Common
  import opened Wire

  const KEY_SHARE: nat := 0x0033
  const ECH: nat := 0x00fe
  const SNI: nat := 0x0000

  // ----- printing

  datatype Extension = Extension(kind: nat, body: bytes)

  datatype Hello = Hello(version: bytes, random: bytes, sessionId: bytes, suites: bytes, compression: bytes,
                         extensions: Option<seq<Extension>>)

  ghost predicate LegalExtensions(es: seq<Extension>) {
    forall i :: 0 <= i < |es| ==> es[i].kind < 0x1_0000 && |es[i].body| < 0x1_0000
  }

  function PrintExtensions(es: seq<Extension>): bytes
    requires LegalExtensions(es)
  {
    if es == [] then []
    else U16(es[0].kind) + (U16(|es[0].body|) + (es[0].body + PrintExtensions(es[1..])))
  }

  ghost predicate Legal(h: Hello) {
    && |h.version| == 2 && |h.random| == 32 && |h.sessionId| < 256
    && |h.suites| < 0x1_0000 && |h.compression| < 256
    && (h.extensions.Some? ==>
          LegalExtensions(h.extensions.value) && |PrintExtensions(h.extensions.value)| < 0x1_0000)
  }

  function PrintBlock(h: Hello): bytes
    requires Legal(h)
  {
    if h.extensions.None? then []
    else U16(|PrintExtensions(h.extensions.value)|) + PrintExtensions(h.extensions.value)
  }

  function PrintBody(h: Hello): bytes
    requires Legal(h)
  {
    h.version + (h.random + ([|h.sessionId| as byte] + (h.sessionId + (U16(|h.suites|) + (h.suites
      + ([|h.compression| as byte] + (h.compression + PrintBlock(h))))))))
  }

  /** The hello fits one record. */
  ghost predicate FitsRecord(h: Hello) {
    Legal(h) && 4 + |PrintBody(h)| < 0x1_0000
  }

  /** A handshake record holding exactly this hello. */
  function PrintRecord(minor: byte, h: Hello): bytes
    requires FitsRecord(h)
  {
    [0x16, 3, minor] + (U16(4 + |PrintBody(h)|) + ([1, 0] + (U16(|PrintBody(h)|) + PrintBody(h))))
  }

  // ----- parsing

  datatype Error =
    | NotHandshake | NotTls | RecordTooLong | HandshakeTooShort | NotClientHello | HandshakeTooLong | HelloTooShort
    | EndAfterRandom | SessionIdTooLong | NoSuitesLength | SuitesTooLong | NoCompressionLength | CompressionTooLong
    | ExtensionsTooLong | ExtensionTooLong | DuplicateSni | SniTooShort | SniListMismatch | SniEntryTooShort
    | SniNameType | SniNameTooLong

  /** What the scan of the extensions has found; sniStart is -1 while there is no name. */
  datatype Found = Found(sniStart: int, sniLen: int, hasKeyShare: bool, hasECH: bool)

  datatype Parsed = Parsed(version: bytes, found: Found, error: Option<Error>)

  const NOTHING := Found(-1, 0, false, false)

  /** The server_name list inside an extension body: the offset of the name is always 5. */
  function SniName(body: bytes): Result<nat, Error> {
    if |body| < 2 then Err(SniTooShort)
    else if U16At(body, 0) + 2 != |body| then Err(SniListMismatch)
    else if |body| < 5 then Err(SniEntryTooShort)
    else if body[2] != 0 then Err(SniNameType)
    else if 5 + U16At(body, 3) > |body| then Err(SniNameTooLong)
    else Ok(U16At(body, 3))
  }

  /** One extension, whose body starts at offset `at` of the record. */
  function Step(f: Found, kind: nat, body: bytes, at: nat): Result<Found, Error> {
    if kind == KEY_SHARE then Ok(f.(hasKeyShare := true))
    else if kind == ECH then Ok(f.(hasECH := true))
    else if kind == SNI then
      if f.sniStart != -1 then Err(DuplicateSni)
      else
        match SniName(body)
        case Err(e) => Err(e)
        case Ok(n) => Ok(f.(sniStart := at + 5, sniLen := n))
    else Ok(f)
  }

  /** The extensions from offset to end, starting with what was found before. */
  function Extensions(data: bytes, offset: nat, end: nat, f: Found): (Found, Option<Error>)
    requires offset <= end <= |data|
    decreases end - offset
  {
    if offset + 4 > end then (f, None)
    else
      var stop := offset + 4 + U16At(data, offset + 2);
      if stop > end then (f, Some(ExtensionTooLong))
      else
        match Step(f, U16At(data, offset), data[offset + 4..stop], offset + 4)
        case Err(e) => (f, Some(e))
        case Ok(g) => Extensions(data, stop, end, g)
  }

  /** The offset behind the compression methods. */
  function Fields(data: bytes): Result<nat, Error>
    requires |data| >= 5
  {
    var offset := 43;
    if offset >= |data| then Err(EndAfterRandom)
    else
      var sid := offset + 1 + data[offset] as nat;
      if sid > |data| then Err(SessionIdTooLong)
      else if sid + 2 > |data| then Err(NoSuitesLength)
      else
        var cs := sid + 2 + U16At(data, sid);
        if cs > |data| then Err(SuitesTooLong)
        else if cs >= |data| then Err(NoCompressionLength)
        else
          var cm := cs + 1 + data[cs] as nat;
          if cm > |data| then Err(CompressionTooLong) else Ok(cm)
  }

  /** The checks on the record and handshake headers. */
  function Headers(data: bytes): Option<Error>
    requires |data| >= 5
  {
    if data[0] != 0x16 then Some(NotHandshake)
    else if data[1] != 3 then Some(NotTls)
    else if |data| < 5 + U16At(data, 3) then Some(RecordTooLong)
    else if U16At(data, 3) < 4 then Some(HandshakeTooShort)
    else if data[5] != 1 then Some(NotClientHello)
    else if U24At(data, 6) + 4 > U16At(data, 3) then Some(HandshakeTooLong)
    else if U24At(data, 6) < 35 then Some(HelloTooShort)
    else None
  }

  function Parse(data: bytes): Parsed
    requires |data| >= 5
  {
    var h := Headers(data);
    if h.Some? then Parsed([], NOTHING, h)
    else
      var version := data[9..11];
      match Fields(data)
      case Err(e) => Parsed(version, NOTHING, Some(e))
      case Ok(offset) =>
        if offset + 2 > |data| then Parsed(version, NOTHING, None)
        else
          var end := offset + 2 + U16At(data, offset);
          if end > |data| then Parsed(version, NOTHING, Some(ExtensionsTooLong))
          else
            var (f, e) := Extensions(data, offset + 2, end, NOTHING);
            Parsed(version, f, e)
  }

  /** parseClientHello.  Five bytes are what its callers guarantee. */
  method ParseClientHello(data: bytes) returns (r: Parsed)
    requires |data| >= 5
    ensures r == Parse(data)
  {
    if data[0] != 0x16 {
      return Parsed([], NOTHING, Some(NotHandshake));
    }
    if data[1] != 3 {
      return Parsed([], NOTHING, Some(NotTls));
    }
    var recordLen := U16At(data, 3);
    if |data| < 5 + recordLen {
      return Parsed([], NOTHING, Some(RecordTooLong));
    }
    var offset := 5;
    if recordLen < 4 {
      return Parsed([], NOTHING, Some(HandshakeTooShort));
    }
    if data[offset] != 1 {
      return Parsed([], NOTHING, Some(NotClientHello));
    }
    var handshakeLen := U24At(data, offset + 1);
    if handshakeLen + 4 > recordLen {
      return Parsed([], NOTHING, Some(HandshakeTooLong));
    }
    offset := offset + 4;
    if handshakeLen < 2 + 32 + 1 {
      return Parsed([], NOTHING, Some(HelloTooShort));
    }
    var version := data[offset..offset + 2];
    offset := offset + 2 + 32;
    if offset >= |data| {
      return Parsed(version, NOTHING, Some(EndAfterRandom));
    }
    var sessionIDLen := data[offset] as nat;
    offset := offset + 1;
    if offset + sessionIDLen > |data| {
      return Parsed(version, NOTHING, Some(SessionIdTooLong));
    }
    offset := offset + sessionIDLen;
    if offset + 2 > |data| {
      return Parsed(version, NOTHING, Some(NoSuitesLength));
    }
    var csLen := U16At(data, offset);
    offset := offset + 2;
    if offset + csLen > |data| {
      return Parsed(version, NOTHING, Some(SuitesTooLong));
    }
    offset := offset + csLen;
    if offset >= |data| {
      return Parsed(version, NOTHING, Some(NoCompressionLength));
    }
    var compMethodsLen := data[offset] as nat;
    offset := offset + 1;
    if offset + compMethodsLen > |data| {
      return Parsed(version, NOTHING, Some(CompressionTooLong));
    }
    offset := offset + compMethodsLen;
    if offset + 2 > |data| {
      return Parsed(version, NOTHING, None);
    }
    var extTotalLen := U16At(data, offset);
    offset := offset + 2;
    if offset + extTotalLen > |data| {
      return Parsed(version, NOTHING, Some(ExtensionsTooLong));
    }
    r := ScanExtensions(data, offset, offset + extTotalLen, version);
  }

  lemma FieldInSlice(data: bytes, start: nat, end: nat, i: nat)
    requires start <= end <= |data| && i + 2 <= end - start
    ensures U16At(data[start..end], i) == U16At(data, start + i)
  {
  }

  /** The server-name extension between start and end: the length of its name, which
      begins five bytes in. */
  method ScanName(data: bytes, start: nat, end: nat) returns (r: Result<nat, Error>)
    requires start <= end <= |data|
    ensures r == SniName(data[start..end])
  {
    var extLen := end - start;
    if extLen < 2 {
      return Err(SniTooShort);
    }
    FieldInSlice(data, start, end, 0);
    hide U16At;
    var listLen := U16At(data, start);
    if listLen + 2 != extLen {
      return Err(SniListMismatch);
    }
    var cursor := start + 2;
    if cursor + 3 > end {
      return Err(SniEntryTooShort);
    }
    var nameType := data[cursor];
    if nameType != 0 {
      return Err(SniNameType);
    }
    FieldInSlice(data, start, end, 3);
    var nameLen := U16At(data, cursor + 1);
    if cursor + 3 + nameLen > end {
      return Err(SniNameTooLong);
    }
    return Ok(nameLen);
  }

  method ScanExtensions(data: bytes, start: nat, extensionsEnd: nat, version: bytes) returns (r: Parsed)
    requires start <= extensionsEnd <= |data|
    ensures var (f, e) := Extensions(data, start, extensionsEnd, NOTHING); r == Parsed(version, f, e)
  {
    hide U16At, SniName;
    var offset, sniStart, sniLen, hasKeyShare, hasECH := start, -1, 0, false, false;
    while offset + 4 <= extensionsEnd
      invariant start <= offset <= extensionsEnd
      invariant Extensions(data, start, extensionsEnd, NOTHING)
             == Extensions(data, offset, extensionsEnd, Found(sniStart, sniLen, hasKeyShare, hasECH))
    {
      var extType := U16At(data, offset);
      var extLen := U16At(data, offset + 2);
      var extDataStart := offset + 4;
      var extDataEnd := extDataStart + extLen;
      var f := Found(sniStart, sniLen, hasKeyShare, hasECH);
      if extDataEnd > extensionsEnd {
        return Parsed(version, f, Some(ExtensionTooLong));
      }
      if extType == KEY_SHARE {
        hasKeyShare := true;
      } else if extType == ECH {
        hasECH := true;
      } else if extType == SNI {
        if sniStart != -1 {
          return Parsed(version, f, Some(DuplicateSni));
        }
        var name := ScanName(data, extDataStart, extDataEnd);
        if name.Err? {
          return Parsed(version, f, Some(name.error));
        }
        sniStart := extDataStart + 5;
        sniLen := name.value;
      }
      offset := extDataEnd;
    }
    r := Parsed(version, Found(sniStart, sniLen, hasKeyShare, hasECH), None);
  }
}
