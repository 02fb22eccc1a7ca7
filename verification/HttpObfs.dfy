/** Reading through the HTTP disguise (simple-obfs/http.go): the response header
    is stripped and everything behind it is handed on. */
module HttpObfs {
  import opened Common

  const RELAY_BUFFER_SIZE: nat := 20480
  const MAX_HEADER_BYTES: nat := 8192

  // ----- the delimiter

  /** The four bytes CR LF CR LF stand at i. */
  predicate At(s: bytes, i: nat) {
    i + 4 <= |s| && s[i] == 13 && s[i + 1] == 10 && s[i + 2] == 13 && s[i + 3] == 10
  }

  function IndexFrom(s: bytes, i: nat): (r: Option<nat>)
    requires i <= |s|
    ensures r.Some? ==> i <= r.value && At(s, r.value) && forall j :: i <= j < r.value ==> !At(s, j)
    ensures r.None? ==> forall j :: i <= j ==> !At(s, j)
    decreases |s| - i
  {
    if At(s, i) then Some(i) else if i == |s| then None else IndexFrom(s, i + 1)
  }

  /** Where the first delimiter ends. */
  function HeaderEnd(s: bytes): (r: Option<nat>)
    ensures r.Some? ==> 4 <= r.value <= |s|
  {
    var i := IndexFrom(s, 0);
    if i.Some? then Some(i.value + 4) else None
  }

  /** CR LF CR LF ends at e. */
  predicate Delimited(s: bytes, e: nat) {
    4 <= e <= |s| && s[e - 4..e] == [13, 10, 13, 10]
  }

  /** The header ends behind the first delimiter. */
  lemma HeaderEndExactly(s: bytes, e: nat)
    ensures HeaderEnd(s) == Some(e) <==> Delimited(s, e) && forall j :: 0 <= j < e ==> !Delimited(s, j)
    ensures HeaderEnd(s) == None <==> forall j :: 0 <= j ==> !Delimited(s, j)
  {
    hide HeaderEnd, Delimited, At;
    HeaderEndAt(s);
    forall j: nat ensures Delimited(s, j) <==> j >= 4 && At(s, j - 4) {
      AtExactly(s, j);
    }
    assert forall i :: 0 <= i && At(s, i) ==> Delimited(s, i + 4);
  }

  lemma AtExactly(s: bytes, e: nat)
    ensures Delimited(s, e) <==> e >= 4 && At(s, e - 4)
  {
    if 4 <= e <= |s| {
      var t := s[e - 4..e];
      assert t[0] == s[e - 4] && t[1] == s[e - 3] && t[2] == s[e - 2] && t[3] == s[e - 1];
      assert t == [t[0], t[1], t[2], t[3]];
    }
  }

  lemma HeaderEndAt(s: bytes)
    ensures HeaderEnd(s).Some? ==>
      At(s, HeaderEnd(s).value - 4) && forall j :: 0 <= j < HeaderEnd(s).value - 4 ==> !At(s, j)
    ensures HeaderEnd(s).None? ==> forall j :: 0 <= j ==> !At(s, j)
  {
  }

  /** Seeing more of the stream does not move a delimiter that has been seen, and a
      delimiter is seen as soon as its last byte is. */
  lemma HeaderEndPrefix(s: bytes, m: nat)
    requires m <= |s|
    ensures
      HeaderEnd(s[..m]) == (if HeaderEnd(s).Some? && HeaderEnd(s).value <= m then HeaderEnd(s) else None)
  {
    var p := s[..m];
    assert forall j: nat :: At(p, j) <==> At(s, j) && j + 4 <= m;
    var i, k := IndexFrom(p, 0), IndexFrom(s, 0);
    if i.Some? {
      assert At(s, i.value);
      assert k.Some?;
    }
  }

  // ----- the connection underneath

  /** What one read of the connection would give if the buffer were large enough. */
  datatype Arrival = Arrival(data: bytes, err: Option<string>)

  /** All bytes still to come. */
  function Bytes(script: seq<Arrival>): bytes {
    if script == [] then [] else script[0].data + Bytes(script[1..])
  }

  /** The bytes still to come before or together with the first error. */
  function Clean(script: seq<Arrival>): bytes {
    if script == [] then []
    else if script[0].err.Some? then script[0].data
    else script[0].data + Clean(script[1..])
  }

  method CopyInto(a: array<byte>, lo: nat, data: bytes)
    requires lo + |data| <= a.Length
    modifies a
    ensures a[..lo] == old(a[..lo]) && a[lo..lo + |data|] == data && a[lo + |data|..] == old(a[lo + |data|..])
  {
    var i := 0;
    while i < |data|
      invariant 0 <= i <= |data|
      invariant forall k :: 0 <= k < i ==> a[lo + k] == data[k]
      invariant forall k :: 0 <= k < a.Length && !(lo <= k < lo + i) ==> a[k] == old(a[k])
    {
      a[lo + i] := data[i];
      i := i + 1;
    }
  }

  lemma ScriptHead(script: seq<Arrival>)
    requires script != []
    ensures Bytes(script) == script[0].data + Bytes(script[1..])
    ensures Clean(script) == if script[0].err.Some? then script[0].data else script[0].data + Clean(script[1..])
  {
  }

  /** Taking n bytes off the first arrival. */
  lemma ScriptSplit(head: Arrival, rest: seq<Arrival>, n: nat)
    requires n <= |head.data|
    ensures
      var before, after := [head] + rest, [Arrival(head.data[n..], head.err)] + rest;
      Bytes(before) == head.data[..n] + Bytes(after) && Clean(before) == head.data[..n] + Clean(after)
  {
    var before, after := [head] + rest, [Arrival(head.data[n..], head.err)] + rest;
    assert before[1..] == rest && after[1..] == rest;
    ScriptHead(before);
    ScriptHead(after);
    assert head.data == head.data[..n] + head.data[n..];
    hide Bytes, Clean;
    Associative(head.data[..n], head.data[n..], Bytes(rest));
    Associative(head.data[..n], head.data[n..], Clean(rest));
  }

  /** What a read with this much room gives, and what is left to come. */
  function Next(script: seq<Arrival>, room: nat): (bytes, Option<string>, seq<Arrival>) {
    if script == [] then ([], Some("EOF"), [])
    else if |script[0].data| <= room then (script[0].data, script[0].err, script[1..])
    else (script[0].data[..room], None, [Arrival(script[0].data[room..], script[0].err)] + script[1..])
  }

  lemma NextFacts(script: seq<Arrival>, room: nat)
    ensures
      var (data, err, rest) := Next(script, room);
      && |data| <= room && |rest| <= |script|
      && Bytes(script) == data + Bytes(rest)
      && (err.None? ==> Clean(script) == data + Clean(rest))
      && (err.Some? ==> Clean(script) == data)
      && (err.None? && room > 0 ==> |rest| < |script| || data != [])
  {
    if script == [] {
    } else {
      assert script == [script[0]] + script[1..];
      ScriptHead(script);
      hide Bytes, Clean;
      if |script[0].data| > room {
        ScriptSplit(script[0], script[1..], room);
      }
    }
  }

  class Conn {
    var script: seq<Arrival>

    constructor (script: seq<Arrival>)
      ensures this.script == script
    {
      this.script := script;
    }

    /** Reads into a from lo on: nothing is lost, and an error comes with or after
        the bytes that precede it. */
    method Read(a: array<byte>, lo: nat) returns (n: nat, err: Option<string>)
      requires lo <= a.Length
      modifies this, a
      ensures lo + n <= a.Length
      ensures a[..lo] == old(a[..lo])
      ensures old(Bytes(script)) == a[lo..lo + n] + Bytes(script)
      ensures err.None? ==> old(Clean(script)) == a[lo..lo + n] + Clean(script)
      ensures err.Some? ==> old(Clean(script)) == a[lo..lo + n]
      ensures err.None? && lo < a.Length ==> |script| < |old(script)| || n > 0
      ensures |script| <= |old(script)|
    {
      hide Bytes, Clean, Next;
      NextFacts(script, a.Length - lo);
      var (data, e, rest) := Next(script, a.Length - lo);
      n, err, script := |data|, e, rest;
      CopyInto(a, lo, data);
      assert a[lo..lo + n] == data;
    }
  }

  // ----- the header

  /** The header of a stream can be stripped: it ends within the limit and before
      the connection fails. */
  ghost predicate Strippable(script: seq<Arrival>) {
    HeaderEnd(Clean(script)).Some? && HeaderEnd(Clean(script)).value <= 8192
  }

  /** A decision taken on the bytes seen so far is the decision for the stream. */
  lemma SeenDecides(seen: bytes, rest: bytes)
    ensures HeaderEnd(seen).Some? ==> HeaderEnd(seen + rest) == HeaderEnd(seen)
    ensures HeaderEnd(seen).None? && HeaderEnd(seen + rest).Some? ==> HeaderEnd(seen + rest).value > |seen|
  {
    assert (seen + rest)[..|seen|] == seen;
    HeaderEndPrefix(seen + rest, |seen|);
  }

  /** Collects the response until its header has been seen.  It succeeds for every
      segmentation of a strippable stream, and for no other stream. */
  method ReadHeader(conn: Conn, buf: array<byte>) returns (total: nat, end: nat, err: Option<string>)
    requires buf.Length == RELAY_BUFFER_SIZE
    modifies conn, buf
    ensures err.None? <==> old(Strippable(conn.script))
    ensures err.None? ==>
      && end <= total <= buf.Length && HeaderEnd(buf[..total]) == Some(end)
      && old(Bytes(conn.script)) == buf[..total] + Bytes(conn.script)
  {
    hide HeaderEnd, Bytes, Clean;
    ghost var stream, clean := Bytes(conn.script), Clean(conn.script);
    total, end, err := 0, 0, None;
    assert HeaderEnd([]).None? by { NoHeader(); }
    assert buf[..0] == [] && [] + stream == stream && [] + clean == clean;
    while true
      invariant total < MAX_HEADER_BYTES && HeaderEnd(buf[..total]).None?
      invariant stream == buf[..total] + Bytes(conn.script) && clean == buf[..total] + Clean(conn.script)
      decreases |conn.script| + |Bytes(conn.script)|
    {
      ghost var seen := buf[..total];
      var n, e := conn.Read(buf, total);
      ghost var got, rest := buf[total..total + n], Bytes(conn.script);
      ghost var later := if e.Some? then [] else Clean(conn.script);
      total := total + n;
      ghost var now := buf[..total];
      assert now == seen + got && got + [] == got;
      Associative(seen, got, rest);
      Associative(seen, got, later);
      assert stream == now + rest && clean == now + later;
      SeenDecides(now, later);
      var found := HeaderEnd(buf[..total]);
      if found.Some? {
        end := found.value;
        if end > MAX_HEADER_BYTES {
          err := Some("http obfs: response header exceeds the limit");
          return;
        }
        return;
      }
      if e.Some? {
        err := e;
        return;
      }
      if total >= MAX_HEADER_BYTES {
        err := Some("http obfs: response header exceeds the limit");
        return;
      }
    }
  }

  lemma NoHeader()
    ensures HeaderEnd([]).None?
  {
  }

  lemma Behind(s: bytes, total: nat, end: nat, rest: bytes)
    requires end <= total <= |s|
    ensures (s[..total] + rest)[end..] == s[end..total] + rest
  {
    assert s[..total][end..] == s[end..total];
  }

  lemma Regroup(delivered: bytes, a: bytes, b: bytes, rest: bytes)
    ensures (delivered + (a + b)) + rest == ((delivered + a) + b) + rest
  {
    Associative(delivered, a, b);
  }

  class HTTPObfs {
    const conn: Conn
    var buf: array?<byte>
    var limit: nat
    var offset: nat
    var firstResponse: bool

    /** All that the server sends, and what has been handed on of it. */
    ghost const stream: bytes
    ghost var delivered: bytes

    /** Read from the connection and not handed on yet. */
    ghost function Kept(): bytes
      requires buf != null ==> offset <= limit <= buf.Length
      reads this, buf
    {
      if buf == null then [] else buf[offset..limit]
    }

    ghost predicate Valid()
      reads this, conn, buf
    {
      && (buf != null ==> offset <= limit <= buf.Length)
      && (firstResponse ==> buf == null && delivered == [] && Bytes(conn.script) == stream)
      && (!firstResponse ==>
            && HeaderEnd(stream).Some?
            && delivered + Kept() + Bytes(conn.script) == stream[HeaderEnd(stream).value..])
    }

    constructor (conn: Conn)
      ensures Valid() && firstResponse && delivered == []
      ensures this.conn == conn && stream == Bytes(conn.script) && buf == null
    {
      this.conn, buf, limit, offset, firstResponse := conn, null, 0, 0, true;
      stream, delivered := Bytes(conn.script), [];
    }

    /** Hands on bytes behind the header in order, none lost and none repeated; only
        a read that meets no strippable header leaves the object unusable. */
    method Read(b: array<byte>) returns (n: nat, err: Option<string>)
      requires Valid() && b != buf
      modifies this, conn, b, buf
      ensures n <= b.Length
      ensures old(firstResponse) ==> (err.None? <==> old(Strippable(conn.script)))
      ensures old(firstResponse) && err.Some? ==> n == 0 && firstResponse
      ensures old(!firstResponse) || err.None? ==>
        Valid() && !firstResponse && delivered == old(delivered) + b[..n]
      ensures buf == null || buf == old(buf) || fresh(buf)
    {
      hide HeaderEnd, Bytes, Strippable;
      if buf != null {
        n := CopyKept(b);
        err := None;
        return;
      }
      if firstResponse {
        n, err := ReadFirst(b);
        return;
      }
      n, err := conn.Read(b, 0);
      assert b[0..n] == b[..n];
      delivered := delivered + b[..n];
    }

    method CopyKept(b: array<byte>) returns (n: nat)
      requires Valid() && buf != null && b != buf
      modifies this, b
      ensures n <= b.Length && Valid() && !firstResponse && delivered == old(delivered) + b[..n]
      ensures buf == null || buf == old(buf)
    {
      hide HeaderEnd, Bytes;
      ghost var kept, rest := Kept(), Bytes(conn.script);
      n := if b.Length < limit - offset then b.Length else limit - offset;
      ghost var all := buf[..];
      assert kept == all[offset..limit] && buf[offset..offset + n] == all[offset..offset + n];
      Cut(all, offset, limit, n);
      CopyInto(b, 0, buf[offset..offset + n]);
      assert b[0..n] == b[..n] == kept[..n];
      assert buf[..] == all;
      delivered := delivered + b[..n];
      offset := offset + n;
      assert Kept() == all[offset..limit] == kept[n..];
      if offset == limit {
        buf := null;
      }
      assert Kept() == kept[n..];
      Regroup(old(delivered), kept[..n], kept[n..], rest);
    }

    method ReadFirst(b: array<byte>) returns (n: nat, err: Option<string>)
      requires Valid() && firstResponse
      modifies this, conn, b
      ensures n <= b.Length
      ensures err.None? <==> old(Strippable(conn.script))
      ensures err.Some? ==> n == 0 && firstResponse && buf == null
      ensures err.None? ==> Valid() && !firstResponse && delivered == b[..n]
      ensures buf == null || fresh(buf)
    {
      hide HeaderEnd, Bytes, Strippable;
      var page := new byte[RELAY_BUFFER_SIZE];
      var total, end;
      total, end, err := ReadHeader(conn, page);
      n := 0;
      if err.Some? {
        return;
      }
      n := HandOn(page, total, end, b);
    }

    /** Hands on what came behind the header and keeps what does not fit. */
    method HandOn(page: array<byte>, total: nat, end: nat, b: array<byte>) returns (n: nat)
      requires buf == null && end <= total <= page.Length && page != b
      requires HeaderEnd(page[..total]) == Some(end) && stream == page[..total] + Bytes(conn.script)
      modifies this, b
      ensures n <= b.Length && Valid() && !firstResponse && delivered == b[..n]
      ensures buf == null || buf == page
    {
      hide HeaderEnd, Bytes;
      ghost var rest, all := Bytes(conn.script), page[..];
      assert page[..total] == all[..total];
      SeenDecides(all[..total], rest);
      Behind(all, total, end, rest);
      firstResponse := false;
      var length := total - end;
      n := if b.Length < length then b.Length else length;
      Cut(all, end, total, n);
      assert page[end..end + n] == all[end..end + n];
      CopyInto(b, 0, page[end..end + n]);
      assert b[0..n] == b[..n];
      assert page[..] == all;
      delivered := b[..n];
      if length > n {
        buf, limit, offset := page, total, end + n;
        assert Kept() == all[end + n..total];
      } else {
        assert all[end + n..total] == [];
      }
      assert Kept() == all[end + n..total];
    }
  }
}
