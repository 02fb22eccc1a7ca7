/** Parsing undoes printing, for every ClientHello that fills one record. */
module HelloRoundTrip {
  import opened ClientHello
  import opened Common
  import opened Wire

  /** The scan of a list of extensions, the first one at offset `at`. */
  function Scan(es: seq<Extension>, at: nat, f: Found): (Found, Option<Error>)
    decreases |es|
  {
    if es == [] then (f, None)
    else
      match Step(f, es[0].kind, es[0].body, at + 4)
      case Err(e) => (f, Some(e))
      case Ok(g) => Scan(es[1..], at + 4 + |es[0].body|, g)
  }

  lemma {:induction false} ExtensionsAreScan(data: bytes, es: seq<Extension>, at: nat, end: nat, f: Found)
    requires LegalExtensions(es) && Has(data, at, PrintExtensions(es)) && end == at + |PrintExtensions(es)|
    ensures Extensions(data, at, end, f) == Scan(es, at, f)
    decreases |es|
  {
    hide Has, Step, SniName;
    if es != [] {
      HeadExtension(data, es, at);
      var e := es[0];
      match Step(f, e.kind, e.body, at + 4) {
        case Err(_) =>
        case Ok(g) => ExtensionsAreScan(data, es[1..], at + 4 + |e.body|, end, g);
      }
    }
  }

  lemma HeadExtension(data: bytes, es: seq<Extension>, at: nat)
    requires LegalExtensions(es) && es != [] && Has(data, at, PrintExtensions(es))
    ensures at + 4 + |es[0].body| <= |data|
    ensures U16At(data, at) == es[0].kind && U16At(data, at + 2) == |es[0].body|
    ensures data[at + 4..at + 4 + |es[0].body|] == es[0].body
    ensures Has(data, at + 4 + |es[0].body|, PrintExtensions(es[1..]))
    ensures |PrintExtensions(es)| == 4 + |es[0].body| + |PrintExtensions(es[1..])|
  {
    var e, rest := es[0], PrintExtensions(es[1..]);
    assert PrintExtensions(es) == U16(e.kind) + (U16(|e.body|) + (e.body + rest));
    hide PrintExtensions, Has, U16, U16At;
    HasConcat(data, at, U16(e.kind), U16(|e.body|) + (e.body + rest));
    HasConcat(data, at + 2, U16(|e.body|), e.body + rest);
    HasConcat(data, at + 4, e.body, rest);
    HasSlice(data, at + 4, e.body);
    HasU16(data, at, e.kind);
    HasU16(data, at + 2, |e.body|);
  }

  // ----- what the scan means

  predicate IsSni(e: Extension) {
    e.kind == 0
  }

  /** At most one server_name extension, with a well-formed list. */
  ghost predicate SniOk(es: seq<Extension>) {
    && (forall i, j :: 0 <= i < j < |es| ==> !(IsSni(es[i]) && IsSni(es[j])))
    && (forall i :: 0 <= i < |es| && IsSni(es[i]) ==> SniName(es[i].body).Ok?)
  }

  ghost predicate NoSni(es: seq<Extension>) {
    forall i :: 0 <= i < |es| ==> !IsSni(es[i])
  }

  ghost predicate HasKind(es: seq<Extension>, kind: nat) {
    exists i :: 0 <= i < |es| && es[i].kind == kind
  }

  lemma HasKindCons(es: seq<Extension>, kind: nat)
    requires es != []
    ensures HasKind(es, kind) <==> es[0].kind == kind || HasKind(es[1..], kind)
  {
    if HasKind(es, kind) && es[0].kind != kind {
      var i :| 0 <= i < |es| && es[i].kind == kind;
      assert es[1..][i - 1].kind == kind;
    }
    if HasKind(es[1..], kind) {
      var i :| 0 <= i < |es[1..]| && es[1..][i].kind == kind;
      assert es[i + 1].kind == kind;
    }
  }

  lemma SniOkCons(es: seq<Extension>)
    requires es != []
    ensures SniOk(es) <==>
      if IsSni(es[0]) then SniName(es[0].body).Ok? && NoSni(es[1..]) else SniOk(es[1..])
    ensures NoSni(es) <==> !IsSni(es[0]) && NoSni(es[1..])
  {
    assert forall i :: 1 <= i < |es| ==> es[i] == es[1..][i - 1];
    if SniOk(es) && IsSni(es[0]) {
      forall i | 0 <= i < |es[1..]| ensures !IsSni(es[1..][i]) {
        assert es[1..][i] == es[i + 1];
      }
    }
    if SniOk(es) && !IsSni(es[0]) {
      assert forall i :: 0 <= i < |es[1..]| ==> es[1..][i] == es[i + 1];
    }
  }

  /** The scan succeeds exactly on lists with at most one, well-formed name, and
      reports the presence of each kind. */
  lemma {:induction false} ScanMeaning(es: seq<Extension>, at: nat, f: Found)
    ensures
      var (g, e) := Scan(es, at, f);
      && (e.None? <==> if f.sniStart == -1 then SniOk(es) else NoSni(es))
      && (e.None? ==>
            && (g.hasKeyShare <==> f.hasKeyShare || HasKind(es, 51))
            && (g.hasECH <==> f.hasECH || HasKind(es, 254))
            && (f.sniStart == -1 && NoSni(es) ==> g.sniStart == -1 && g.sniLen == f.sniLen))
    decreases |es|
  {
    if es != [] {
      SniOkCons(es);
      HasKindCons(es, 51);
      HasKindCons(es, 254);
      match Step(f, es[0].kind, es[0].body, at + 4) {
        case Err(_) =>
        case Ok(g) => ScanMeaning(es[1..], at + 4 + |es[0].body|, g);
      }
    }
  }

  /** Once a name is found, later extensions do not change it. */
  lemma {:induction false} NameKept(es: seq<Extension>, at: nat, f: Found)
    requires f.sniStart != -1 && Scan(es, at, f).1.None?
    ensures Scan(es, at, f).0.sniStart == f.sniStart && Scan(es, at, f).0.sniLen == f.sniLen
    decreases |es|
  {
    if es != [] {
      var g := Step(f, es[0].kind, es[0].body, at + 4).value;
      NameKept(es[1..], at + 4 + |es[0].body|, g);
    }
  }

  lemma NameInFront(data: bytes, es: seq<Extension>, at: nat, f: Found)
    requires es != [] && IsSni(es[0]) && f.sniStart == -1 && Scan(es, at, f).1.None?
    requires at + 4 + |es[0].body| <= |data| && data[at + 4..at + 4 + |es[0].body|] == es[0].body
    ensures SniName(es[0].body).Ok?
    ensures
      var g := Scan(es, at, f).0;
      var n := SniName(es[0].body).value;
      && g.sniLen == n && g.sniStart == at + 9 && g.sniStart + n <= |data|
      && data[g.sniStart..g.sniStart + n] == es[0].body[5..5 + n]
  {
    var e := es[0];
    var g := Step(f, e.kind, e.body, at + 4).value;
    NameKept(es[1..], at + 4 + |e.body|, g);
    var b, n := e.body, SniName(e.body).value;
    SubSlice(data, at + 4, at + 4 + |b|, 5, 5 + n);
    assert at + 4 + 5 == at + 9 && at + 4 + (5 + n) == at + 9 + n;
  }

  lemma SkipInFront(es: seq<Extension>, at: nat, f: Found) returns (g: Found)
    requires es != [] && !IsSni(es[0])
    ensures g.sniStart == f.sniStart && Scan(es, at, f) == Scan(es[1..], at + 4 + |es[0].body|, g)
  {
    g := Step(f, es[0].kind, es[0].body, at + 4).value;
  }

  /** The reported range holds the name of the server_name extension es[i]. */
  lemma {:induction false} NameLocated(data: bytes, es: seq<Extension>, at: nat, f: Found, i: nat)
    requires LegalExtensions(es) && Has(data, at, PrintExtensions(es))
    requires f.sniStart == -1 && SniOk(es) && i < |es| && IsSni(es[i])
    ensures
      var g := Scan(es, at, f).0;
      var n := SniName(es[i].body).value;
      && g.sniLen == n && at + 9 <= g.sniStart && g.sniStart + n <= |data|
      && data[g.sniStart..g.sniStart + n] == es[i].body[5..5 + n]
    decreases |es|
  {
    hide Scan, Step, SniName, Has, PrintExtensions;
    HeadExtension(data, es, at);
    SniOkCons(es);
    ScanMeaning(es, at, f);
    if i == 0 {
      NameInFront(data, es, at, f);
    } else {
      assert !IsSni(es[0]);
      assert es[1..][i - 1] == es[i];
      var g := SkipInFront(es, at, f);
      NameLocated(data, es[1..], at + 4 + |es[0].body|, g, i - 1);
    }
  }

  // ----- the whole record

  lemma RecordPieces(minor: byte, h: Hello)
    requires FitsRecord(h)
    ensures
      var data, body := PrintRecord(minor, h), PrintBody(h);
      && |data| == 9 + |body|
      && data[0] == 0x16 && data[1] == 3 && data[2] == minor && U16At(data, 3) == 4 + |body|
      && data[5] == 1 && U24At(data, 6) == |body|
      && Has(data, 9, body)
  {
    var data, body := PrintRecord(minor, h), PrintBody(h);
    assert |body| < 0x1_0000 - 4;
    assert data == [0x16, 3, minor] + (U16(4 + |body|) + ([1, 0] + (U16(|body|) + body)));
    hide PrintBody, PrintRecord, FitsRecord, U16, U16At;
    HasWhole(data);
    var r4 := U16(|body|) + body;
    var r2 := [1, 0] + r4;
    var r1 := U16(4 + |body|) + r2;
    HasConcat(data, 0, [0x16, 3, minor], r1);
    HasConcat(data, 3, U16(4 + |body|), r2);
    HasConcat(data, 5, [1, 0], r4);
    HasConcat(data, 7, U16(|body|), body);
    HasU16(data, 3, 4 + |body|);
    HasU16(data, 7, |body|);
    assert data[0..3][0] == 0x16 && data[0..3][1] == 3 && data[0..3][2] == minor;
    assert data[5..7][0] == 1 && data[5..7][1] == 0;
  }

  lemma BodyPieces(data: bytes, h: Hello)
    requires Legal(h) && Has(data, 9, PrintBody(h)) && |data| == 9 + |PrintBody(h)|
    ensures
      var block := |data| - |PrintBlock(h)|;
      && 46 <= block && |data| >= 11 && data[9..11] == h.version && Fields(data) == Ok(block) && Has(data, block, PrintBlock(h))
  {
    hide Has, PrintBlock;
    var block := PrintBlock(h);
    var c3 := h.compression + block;
    var c2 := [|h.compression| as byte] + c3;
    var c1 := h.suites + c2;
    var c0 := U16(|h.suites|) + c1;
    var b2 := h.sessionId + c0;
    var b1 := [|h.sessionId| as byte] + b2;
    var b0 := h.random + b1;
    HasConcat(data, 9, h.version, b0);
    HasLength(data, 9, h.version);
    HasConcat(data, 11, h.random, b1);
    HasConcat(data, 43, [|h.sessionId| as byte], b2);
    HasByte(data, 43, |h.sessionId| as byte);
    HasConcat(data, 44, h.sessionId, c0);
    var s := 44 + |h.sessionId|;
    HasConcat(data, s, U16(|h.suites|), c1);
    HasU16(data, s, |h.suites|);
    HasConcat(data, s + 2, h.suites, c2);
    var c := s + 2 + |h.suites|;
    HasConcat(data, c, [|h.compression| as byte], c3);
    HasByte(data, c, |h.compression| as byte);
    HasConcat(data, c + 1, h.compression, block);
  }

  /** The parser, run on the printing of any hello that fits one record, returns
      its version and the scan of its extensions. */
  lemma ParsePrinted(minor: byte, h: Hello)
    requires FitsRecord(h)
    ensures
      var data := PrintRecord(minor, h);
      Parse(data) ==
        if h.extensions.None? then Parsed(h.version, NOTHING, None)
        else var (f, e) := Scan(h.extensions.value, |data| - |PrintExtensions(h.extensions.value)|, NOTHING);
             Parsed(h.version, f, e)
  {
    hide Fields, PrintBody, PrintRecord, PrintExtensions, Extensions, Scan, Has;
    var data := PrintRecord(minor, h);
    RecordPieces(minor, h);
    BodyPieces(data, h);
    if h.extensions.Some? {
      var es := h.extensions.value;
      var at := |data| - |PrintBlock(h)|;
      HasConcat(data, at, U16(|PrintExtensions(es)|), PrintExtensions(es));
      HasU16(data, at, |PrintExtensions(es)|);
      HasLength(data, at + 2, PrintExtensions(es));
      ExtensionsAreScan(data, es, at + 2, |data|, NOTHING);
    }
  }

  /** The body of a server_name extension with one host_name entry. */
  function SniBody(name: bytes): bytes
    requires |name| + 3 < 0x1_0000
  {
    U16(|name| + 3) + ([0] + (U16(|name|) + name))
  }

  lemma SniBodyName(name: bytes)
    requires |name| + 3 < 0x1_0000
    ensures SniName(SniBody(name)) == Ok(|name|) && SniBody(name)[5..5 + |name|] == name
  {
    var b := SniBody(name);
    HasWhole(b);
    HasConcat(b, 0, U16(|name| + 3), [0] + (U16(|name|) + name));
    HasConcat(b, 2, [0], U16(|name|) + name);
    HasConcat(b, 3, U16(|name|), name);
    HasU16(b, 0, |name| + 3);
    HasByte(b, 2, 0);
    HasU16(b, 3, |name|);
  }

  /** Round trip: parsing a printed hello succeeds exactly when its server_name is
      well formed and unique, and then returns the right flags and the byte range
      holding the name. */
  lemma ParseUndoesPrint(minor: byte, h: Hello)
    requires FitsRecord(h) && h.extensions.Some?
    ensures
      var data, es := PrintRecord(minor, h), h.extensions.value;
      var p := Parse(data);
      && p.version == h.version
      && (p.error.None? <==> SniOk(es))
      && (SniOk(es) ==>
            && (p.found.hasKeyShare <==> HasKind(es, 51))
            && (p.found.hasECH <==> HasKind(es, 254))
            && (p.found.sniStart == -1 <==> NoSni(es))
            && forall i, name :: 0 <= i < |es| && |name| + 3 < 0x1_0000 && es[i] == Extension(0, SniBody(name)) ==>
                 && p.found.sniLen == |name| && 46 < p.found.sniStart && p.found.sniStart + |name| <= |data|
                 && data[p.found.sniStart..p.found.sniStart + |name|] == name)
  {
    hide Scan, Parse, SniName, SniBody, Has, PrintBody, PrintRecord, PrintExtensions, Fields, SniOk, HasKind;
    var data, es := PrintRecord(minor, h), h.extensions.value;
    RecordPieces(minor, h);
    BodyPieces(data, h);
    var block := |data| - |PrintBlock(h)|;
    var at := block + 2;
    HasConcat(data, block, U16(|PrintExtensions(es)|), PrintExtensions(es));
    ParsePrinted(minor, h);
    ScanMeaning(es, at, NOTHING);
    if SniOk(es) {
      forall i | 0 <= i < |es| && IsSni(es[i]) ensures Scan(es, at, NOTHING).0.sniStart >= at + 9 {
        NameLocated(data, es, at, NOTHING, i);
      }
      forall i, name | 0 <= i < |es| && |name| + 3 < 0x1_0000 && es[i] == Extension(0, SniBody(name))
        ensures
          var f := Scan(es, at, NOTHING).0;
          && f.sniLen == |name| && 46 < f.sniStart && f.sniStart + |name| <= |data|
          && data[f.sniStart..f.sniStart + |name|] == name
      {
        SniBodyName(name);
        NameLocated(data, es, at, NOTHING, i);
      }
    }
  }

  // ----- every input

  /** A name the parser reports lies inside the record, behind the fixed fields. */
  lemma {:induction false} FoundInBounds(data: bytes, offset: nat, end: nat, f: Found)
    requires offset <= end <= |data| && f.sniStart == -1
    ensures
      var g := Extensions(data, offset, end, f).0;
      g.sniStart != -1 ==> offset + 9 <= g.sniStart && 0 <= g.sniLen && g.sniStart + g.sniLen <= end
    decreases end - offset
  {
    if offset + 4 <= end {
      var stop := offset + 4 + U16At(data, offset + 2);
      if stop <= end {
        match Step(f, U16At(data, offset), data[offset + 4..stop], offset + 4) {
          case Err(_) =>
          case Ok(g) =>
            if g.sniStart == -1 {
              FoundInBounds(data, stop, end, g);
            } else {
              ExtensionsKeepName(data, stop, end, g);
            }
        }
      }
    }
  }

  lemma {:induction false} ExtensionsKeepName(data: bytes, offset: nat, end: nat, f: Found)
    requires offset <= end <= |data| && f.sniStart != -1
    ensures
      var g := Extensions(data, offset, end, f).0;
      g.sniStart == f.sniStart && g.sniLen == f.sniLen
    decreases end - offset
  {
    if offset + 4 <= end {
      var stop := offset + 4 + U16At(data, offset + 2);
      if stop <= end {
        match Step(f, U16At(data, offset), data[offset + 4..stop], offset + 4) {
          case Err(_) =>
          case Ok(g) => ExtensionsKeepName(data, stop, end, g);
        }
      }
    }
  }

  /** On every input the reported range, if any, is inside the data and well
      behind the record header. */
  lemma ParseInBounds(data: bytes)
    requires |data| >= 5
    ensures
      var f := Parse(data).found;
      f.sniStart != -1 ==> 46 < f.sniStart && 0 <= f.sniLen && f.sniStart + f.sniLen <= |data|
  {
    if Headers(data).None? && Fields(data).Ok? {
      var offset := Fields(data).value;
      if offset + 2 <= |data| {
        var end := offset + 2 + U16At(data, offset);
        if end <= |data| {
          FoundInBounds(data, offset + 2, end, NOTHING);
        }
      }
    }
  }
}
