/** The two halves of a UDP session (tunnel/udp.go): the copy loop with its
    bounded renewal, and the filter that pins the session to one peer.

    Clock readings and stamps are integers (nanoseconds). */
module UdpRelay {
  import opened Common

  /** The hard idle limit of the origin direction: three timeouts after its last packet. */
  function Cap(lastSelf: int, timeout: int): int {
    lastSelf + 3 * timeout
  }

  // ----- the copy loop

  datatype Read = Packet | TimedOut | Eof | Failed

  /** One turn of the loop: the clock when the deadline is set, what the read gave,
      the clock when it returned, the other direction's stamp as it is then seen,
      and whether forwarding the packet succeeded. */
  datatype Turn = Turn(start: int, read: Read, finish: int, peerLast: int, written: bool)

  datatype Exit = Running | Capped | Idle | Closed | ReadError | WriteError

  function Deadline(start: int, lastSelf: int, timeout: int, originDir: bool): int {
    if originDir && Cap(lastSelf, timeout) < start + timeout then Cap(lastSelf, timeout) else start + timeout
  }

  function After(turn: Turn, lastSelf: int, timeout: int, originDir: bool): Exit {
    match turn.read
    case TimedOut =>
      if originDir && turn.finish >= Cap(lastSelf, timeout) then Capped
      else if turn.peerLast + timeout < turn.finish then Idle
      else Running
    case Eof => Closed
    case Failed => ReadError
    case Packet => if turn.written then Running else WriteError
  }

  function Stamp(turn: Turn, lastSelf: int): int {
    if turn.read.Packet? then turn.finish else lastSelf
  }

  /** The stamp of this direction before turn k. */
  function StampAt(first: int, turns: seq<Turn>, k: nat): int
    requires k <= |turns|
  {
    if k == 0 then first else Stamp(turns[k - 1], StampAt(first, turns, k - 1))
  }

  /** The loop reaches turn k: no earlier turn ended it. */
  ghost predicate Reaches(first: int, turns: seq<Turn>, k: nat, timeout: int, originDir: bool) {
    k <= |turns| &&
    forall i :: 0 <= i < k ==> After(turns[i], StampAt(first, turns, i), timeout, originDir) == Running
  }

  /** What the clock and read deadlines guarantee of one turn: time does not run
      backwards and a read times out no earlier than its deadline. */
  ghost predicate PlausibleTurn(first: int, turns: seq<Turn>, k: nat, timeout: int, originDir: bool)
    requires k < |turns|
  {
    && turns[k].start <= turns[k].finish
    && (if k == 0 then first else turns[k - 1].finish) <= turns[k].start
    && (turns[k].read.TimedOut? ==>
          Deadline(turns[k].start, StampAt(first, turns, k), timeout, originDir) <= turns[k].finish)
  }

  ghost predicate Plausible(first: int, turns: seq<Turn>, timeout: int, originDir: bool) {
    forall k :: 0 <= k < |turns| ==> PlausibleTurn(first, turns, k, timeout, originDir)
  }

  lemma ReachesNext(first: int, turns: seq<Turn>, k: nat, timeout: int, originDir: bool)
    requires k < |turns| && Reaches(first, turns, k, timeout, originDir)
    ensures
      Reaches(first, turns, k + 1, timeout, originDir) <==>
      After(turns[k], StampAt(first, turns, k), timeout, originDir) == Running
  {
    hide After, StampAt;
  }

  ghost predicate DeadlinesSet(first: int, turns: seq<Turn>, deadlines: seq<int>, timeout: int, originDir: bool) {
    && |deadlines| <= |turns|
    && forall k :: 0 <= k < |deadlines| ==>
         deadlines[k] == Deadline(turns[k].start, StampAt(first, turns, k), timeout, originDir)
  }

  /** The loop ends as idle exactly when a read below the cap timed out and the
      other direction has been silent for more than the timeout. */
  lemma IdleExactly(turn: Turn, lastSelf: int, timeout: int, originDir: bool)
    ensures
      After(turn, lastSelf, timeout, originDir) == Idle <==>
      && turn.read.TimedOut?
      && (originDir ==> turn.finish < Cap(lastSelf, timeout))
      && turn.finish - turn.peerLast > timeout
  {
  }

  /** One turn after the deadline is set. */
  method TakeTurn(turn: Turn, lastSelf: int, timeout: int, originDir: bool) returns (exit: Exit, stamp: int)
    ensures exit == After(turn, lastSelf, timeout, originDir) && stamp == Stamp(turn, lastSelf)
  {
    stamp := lastSelf;
    match turn.read {
      case TimedOut =>
        var now := turn.finish;
        if originDir && now >= Cap(lastSelf, timeout) {
          return Capped, stamp;
        }
        if turn.peerLast + timeout < now {
          return Idle, stamp;
        }
        return Running, stamp;
      case Eof =>
        return Closed, stamp;
      case Failed =>
        return ReadError, stamp;
      case Packet =>
        stamp := turn.finish;
        if !turn.written {
          return WriteError, stamp;
        }
        return Running, stamp;
    }
  }

  /** Runs until a turn ends the loop, or as far as the given turns go. */
  method CopyPacketData(first: int, turns: seq<Turn>, timeout: int, originDir: bool)
    returns (exit: Exit, n: nat, lastSelf: int, deadlines: seq<int>)
    ensures n <= |turns| && |deadlines| == n && lastSelf == StampAt(first, turns, n)
    ensures DeadlinesSet(first, turns, deadlines, timeout, originDir)
    ensures exit == Running ==> n == |turns| && Reaches(first, turns, n, timeout, originDir)
    ensures exit != Running ==>
      && n > 0 && Reaches(first, turns, n - 1, timeout, originDir)
      && exit == After(turns[n - 1], StampAt(first, turns, n - 1), timeout, originDir)
    ensures exit == Idle ==> turns[n - 1].read.TimedOut? && turns[n - 1].finish - turns[n - 1].peerLast > timeout
  {
    hide After, Reaches, Stamp;
    exit, n, lastSelf, deadlines := Running, 0, first, [];
    assert Reaches(first, turns, 0, timeout, originDir) by { ReachesFirst(first, turns, timeout, originDir); }
    while n < |turns|
      invariant n <= |turns| && |deadlines| == n && lastSelf == StampAt(first, turns, n)
      invariant exit == Running && Reaches(first, turns, n, timeout, originDir)
      invariant DeadlinesSet(first, turns, deadlines, timeout, originDir)
    {
      var turn := turns[n];
      var deadline := turn.start + timeout;
      if originDir {
        var hard := Cap(lastSelf, timeout);
        if hard < deadline {
          deadline := hard;
        }
      }
      deadlines := deadlines + [deadline];
      exit, lastSelf := TakeTurn(turn, lastSelf, timeout, originDir);
      ReachesNext(first, turns, n, timeout, originDir);
      IdleExactly(turn, StampAt(first, turns, n), timeout, originDir);
      n := n + 1;
      if exit != Running {
        return;
      }
    }
  }

  lemma ReachesFirst(first: int, turns: seq<Turn>, timeout: int, originDir: bool)
    ensures Reaches(first, turns, 0, timeout, originDir)
  {
  }

  ghost predicate Silent(turns: seq<Turn>, i: nat, j: nat) {
    i <= j <= |turns| && forall k :: i <= k < j ==> turns[k].read.TimedOut?
  }

  lemma {:induction false} StampKept(first: int, turns: seq<Turn>, i: nat, j: nat)
    requires Silent(turns, i, j)
    ensures StampAt(first, turns, j) == StampAt(first, turns, i)
    decreases j
  {
    if i < j {
      StampKept(first, turns, i, j - 1);
    }
  }

  /** The stamp is never ahead of the clock. */
  lemma {:induction false} StampBehind(first: int, turns: seq<Turn>, k: nat, timeout: int, originDir: bool)
    requires k <= |turns| && Plausible(first, turns, timeout, originDir)
    ensures StampAt(first, turns, k) <= if k == 0 then first else turns[k - 1].finish
  {
    if k > 0 {
      assert PlausibleTurn(first, turns, k - 1, timeout, originDir);
      StampBehind(first, turns, k - 1, timeout, originDir);
    }
  }

  /** A timeout meets the cap, or it took a whole timeout since the turn before. */
  lemma TimeoutTakes(first: int, turns: seq<Turn>, k: nat, timeout: int)
    requires k < |turns| && Plausible(first, turns, timeout, true) && turns[k].read.TimedOut?
    ensures
      var last := StampAt(first, turns, k);
      var now := if k == 0 then first else turns[k - 1].finish;
      turns[k].finish >= Cap(last, timeout) || turns[k].finish >= now + timeout
  {
    assert PlausibleTurn(first, turns, k, timeout, true);
    hide StampAt, Plausible;
  }

  /** A timeout ends the loop as capped exactly when it meets the cap. */
  lemma CappedExactly(first: int, turns: seq<Turn>, k: nat, timeout: int)
    requires k < |turns| && turns[k].read.TimedOut?
    ensures
      After(turns[k], StampAt(first, turns, k), timeout, true) == Capped <==>
      turns[k].finish >= Cap(StampAt(first, turns, k), timeout)
  {
    hide StampAt, Cap;
  }

  lemma RunsThrough(first: int, turns: seq<Turn>, k: nat, j: nat, timeout: int, originDir: bool)
    requires k < j && Reaches(first, turns, j, timeout, originDir)
    ensures After(turns[k], StampAt(first, turns, k), timeout, originDir) == Running
  {
  }

  /** The third timeout in a row always meets the cap. */
  lemma ThirdTimeoutCaps(first: int, turns: seq<Turn>, i: nat, timeout: int)
    requires timeout > 0 && Plausible(first, turns, timeout, true)
    requires Silent(turns, i, i + 3) && Reaches(first, turns, i + 2, timeout, true)
    ensures After(turns[i + 2], StampAt(first, turns, i + 2), timeout, true) == Capped
  {
    hide Plausible, StampAt, Reaches, After;
    StampBehind(first, turns, i, timeout, true);
    StampKept(first, turns, i, i + 1);
    StampKept(first, turns, i, i + 2);
    RunsThrough(first, turns, i, i + 2, timeout, true);
    RunsThrough(first, turns, i + 1, i + 2, timeout, true);
    TimeoutTakes(first, turns, i, timeout);
    CappedExactly(first, turns, i, timeout);
    TimeoutTakes(first, turns, i + 1, timeout);
    CappedExactly(first, turns, i + 1, timeout);
    TimeoutTakes(first, turns, i + 2, timeout);
    CappedExactly(first, turns, i + 2, timeout);
  }

  /** Renewal is bounded: whatever the remote side does, the origin loop takes at
      most three timeouts after an origin packet, and the third one ends it. */
  lemma AtMostThreeTimeouts(first: int, turns: seq<Turn>, i: nat, j: nat, timeout: int)
    requires timeout > 0 && Plausible(first, turns, timeout, true)
    requires Silent(turns, i, j) && j > 0 && Reaches(first, turns, j - 1, timeout, true)
    ensures j - i <= 3
    ensures j - i == 3 ==> After(turns[j - 1], StampAt(first, turns, j - 1), timeout, true) == Capped
  {
    hide Plausible, After, StampAt;
    if j - i >= 3 {
      ThirdTimeoutCaps(first, turns, i, timeout);
    }
  }

  /** The bound is reached: a remote side that keeps sending gets three timeouts. */
  lemma ThreeTimeoutsHappen()
    ensures exists turns: seq<Turn> ::
      && |turns| == 3 && Plausible(0, turns, 10, true) && Silent(turns, 0, 3)
      && Reaches(0, turns, 2, 10, true) && After(turns[2], StampAt(0, turns, 2), 10, true) == Capped
  {
    var turns := [
      Turn(0, TimedOut, 10, 9, true), Turn(10, TimedOut, 20, 19, true), Turn(20, TimedOut, 30, 29, true)
    ];
    StampKept(0, turns, 0, 1);
    StampKept(0, turns, 0, 2);
    assert Plausible(0, turns, 10, true);
  }

  // ----- the pinned peer

  /** An address as it comes from the socket. */
  datatype Addr = Udp(ip: bytes, port: int) | Other(text: string)

  datatype Datagram = Datagram(from: Option<Addr>, data: bytes)

  datatype Incoming = Arrives(datagram: Datagram) | Fails(error: string)

  const V4_IN_V6: bytes := [0, 0, 0, 0, 0, 0, 0, 0, 0, 0, 0xff, 0xff]

  /** net.IP.Equal. */
  predicate SameIp(a: bytes, b: bytes) {
    if |a| == |b| then a == b
    else if |a| == 4 && |b| == 16 then b[..12] == V4_IN_V6 && b[12..] == a
    else if |a| == 16 && |b| == 4 then a[..12] == V4_IN_V6 && a[12..] == b
    else false
  }

  function Canonical(ip: bytes): bytes {
    if |ip| == 4 then V4_IN_V6 + ip else ip
  }

  /** Two addresses are the same exactly when their canonical forms are. */
  lemma SameIpCanonical(a: bytes, b: bytes)
    ensures SameIp(a, b) <==> Canonical(a) == Canonical(b)
  {
    if |a| == 4 { assert (V4_IN_V6 + a)[12..] == a && (V4_IN_V6 + a)[..12] == V4_IN_V6; }
    if |b| == 4 { assert (V4_IN_V6 + b)[12..] == b && (V4_IN_V6 + b)[..12] == V4_IN_V6; }
    if |a| == 16 { assert a == a[..12] + a[12..]; }
    if |b| == 16 { assert b == b[..12] + b[12..]; }
  }

  /** Whether the filter lets a datagram through when this peer is pinned. */
  predicate Accepts(dst: string, dstPort: int, peer: Option<Addr>, d: Datagram) {
    match d.from
    case None => true
    case Some(Other(text)) => text == dst
    case Some(Udp(ip, port)) =>
      && port == dstPort
      && (peer.Some? && peer.value.Udp? ==> SameIp(peer.value.ip, ip) && peer.value.port == port)
  }

  function Pinned(peer: Option<Addr>, d: Datagram): Option<Addr> {
    if peer.None? && d.from.Some? && d.from.value.Udp? then d.from else peer
  }

  /** All datagrams of a session that get through, in order. */
  function Delivered(dst: string, dstPort: int, peer: Option<Addr>, incoming: seq<Incoming>): seq<Datagram>
    decreases |incoming|
  {
    if incoming == [] then []
    else if incoming[0].Arrives? && Accepts(dst, dstPort, peer, incoming[0].datagram) then
      [incoming[0].datagram] + Delivered(dst, dstPort, Pinned(peer, incoming[0].datagram), incoming[1..])
    else Delivered(dst, dstPort, peer, incoming[1..])
  }

  class SymmetricNatPacketConn {
    const dst: string
    const dstPort: int
    var learnedPeer: Option<Addr>
    var incoming: seq<Incoming>

    ghost predicate Valid()
      reads this
    {
      learnedPeer.Some? ==> learnedPeer.value.Udp?
    }

    ghost function Session(): seq<Datagram>
      reads this
    {
      Delivered(dst, dstPort, learnedPeer, incoming)
    }

    constructor (dst: string, dstPort: int, incoming: seq<Incoming>)
      ensures Valid() && learnedPeer == None
      ensures this.dst == dst && this.dstPort == dstPort && this.incoming == incoming
    {
      this.dst, this.dstPort, this.learnedPeer, this.incoming := dst, dstPort, None, incoming;
    }

    /** Hands out the first datagram of the session and leaves the rest of it; a
        failing read is reported and drops nothing. */
    method ReadFrom() returns (r: Result<Datagram, string>)
      requires Valid()
      modifies this
      ensures Valid()
      ensures r.Ok? ==> old(Session()) == [r.value] + Session()
      ensures r.Err? ==> old(Session()) == Session()
      ensures old(learnedPeer).Some? ==> learnedPeer == old(learnedPeer)
      ensures |incoming| < |old(incoming)| || (|incoming| == 0 && r.Err?)
    {
      while incoming != []
        invariant Valid() && learnedPeer == old(learnedPeer)
        invariant Session() == old(Session())
        invariant |incoming| <= |old(incoming)|
        decreases |incoming|
      {
        var next := incoming[0];
        incoming := incoming[1..];
        match next {
          case Fails(error) => return Err(error);
          case Arrives(d) =>
            if d.from.Some? {
              match d.from.value {
                case Udp(ip, port) =>
                  if port != dstPort {
                    continue;
                  }
                  if learnedPeer.None? {
                    learnedPeer := d.from;
                  } else if !SameIp(learnedPeer.value.ip, ip) || learnedPeer.value.port != port {
                    continue;
                  }
                case Other(text) =>
                  if text != dst {
                    continue;
                  }
              }
            }
            return Ok(d);
        }
      }
      r := Err("closed");
    }
  }

  /** A datagram of the pinned peer. */
  ghost predicate FromPeer(d: Datagram, ip: bytes, port: int) {
    d.from.Some? && d.from.value.Udp? ==> Canonical(d.from.value.ip) == Canonical(ip) && d.from.value.port == port
  }

  lemma {:induction false} DeliveredFromPinned(dst: string, dstPort: int, peer: Addr, incoming: seq<Incoming>)
    requires peer.Udp?
    ensures forall d :: d in Delivered(dst, dstPort, Some(peer), incoming) ==> FromPeer(d, peer.ip, peer.port)
  {
    if incoming == [] {
    } else {
      DeliveredFromPinned(dst, dstPort, peer, incoming[1..]);
      if incoming[0].Arrives? {
        var from := incoming[0].datagram.from;
        if from.Some? && from.value.Udp? {
          SameIpCanonical(peer.ip, from.value.ip);
        }
      }
    }
  }

  /** One peer for the whole session: any two datagrams with a UDP address that a
      session delivers come from the same address and from the expected port. */
  lemma {:induction false} OnePeer(dst: string, dstPort: int, incoming: seq<Incoming>, a: Datagram, b: Datagram)
    requires a in Delivered(dst, dstPort, None, incoming) && b in Delivered(dst, dstPort, None, incoming)
    requires a.from.Some? && a.from.value.Udp? && b.from.Some? && b.from.value.Udp?
    ensures Canonical(a.from.value.ip) == Canonical(b.from.value.ip)
    ensures a.from.value.port == b.from.value.port == dstPort
  {
    var head := incoming[0];
    if head.Arrives? && Accepts(dst, dstPort, None, head.datagram) {
      var d := head.datagram;
      if d.from.Some? && d.from.value.Udp? {
        DeliveredFromPinned(dst, dstPort, d.from.value, incoming[1..]);
        assert FromPeer(a, d.from.value.ip, d.from.value.port);
        assert FromPeer(b, d.from.value.ip, d.from.value.port);
      } else {
        assert a != d && b != d;
        OnePeer(dst, dstPort, incoming[1..], a, b);
      }
    } else {
      OnePeer(dst, dstPort, incoming[1..], a, b);
    }
  }

  /** Nothing of the peer is lost: a datagram that carries the pinned address and
      port is delivered. */
  lemma {:induction false} PeerDelivered(dst: string, dstPort: int, peer: Addr, incoming: seq<Incoming>, d: Datagram)
    requires peer.Udp? && peer.port == dstPort && Arrives(d) in incoming
    requires d.from.Some? && d.from.value.Udp? && FromPeer(d, peer.ip, peer.port)
    ensures d in Delivered(dst, dstPort, Some(peer), incoming)
  {
    SameIpCanonical(peer.ip, d.from.value.ip);
    if incoming[0] != Arrives(d) {
      PeerDelivered(dst, dstPort, peer, incoming[1..], d);
    }
  }

  // ----- exactly what a session delivers

  /** A datagram that can pin the peer. */
  predicate FromPort(x: Incoming, dstPort: int) {
    x.Arrives? && x.datagram.from.Some? && x.datagram.from.value.Udp? && x.datagram.from.value.port == dstPort
  }

  /** Arrival number f is the first one from the expected port. */
  predicate First(incoming: seq<Incoming>, dstPort: int, f: nat) {
    f < |incoming| && FromPort(incoming[f], dstPort) && forall j :: 0 <= j < f ==> !FromPort(incoming[j], dstPort)
  }

  /** Arrival number k belongs to the session: it has no address, or the destination as
      its text, or comes from the expected port and the address of the first one that does. */
  ghost predicate Belongs(dst: string, dstPort: int, incoming: seq<Incoming>, k: nat)
    requires k < |incoming|
  {
    incoming[k].Arrives? &&
    match incoming[k].datagram.from
    case None => true
    case Some(Other(text)) => text == dst
    case Some(Udp(ip, port)) =>
      port == dstPort &&
      exists f: nat :: f <= k && First(incoming, dstPort, f)
                  && Canonical(incoming[f].datagram.from.value.ip) == Canonical(ip)
  }

  /** The datagrams of the session among the first n arrivals, in order. */
  ghost function Belonging(dst: string, dstPort: int, incoming: seq<Incoming>, n: nat): seq<Datagram>
    requires n <= |incoming|
  {
    if n == 0 then []
    else Belonging(dst, dstPort, incoming, n - 1) +
         if Belongs(dst, dstPort, incoming, n - 1) then [incoming[n - 1].datagram] else []
  }

  /** The peer that is pinned after some arrivals. */
  function PeerAfter(dst: string, dstPort: int, peer: Option<Addr>, incoming: seq<Incoming>): Option<Addr>
    decreases |incoming|
  {
    if incoming == [] then peer
    else if incoming[0].Arrives? && Accepts(dst, dstPort, peer, incoming[0].datagram) then
      PeerAfter(dst, dstPort, Pinned(peer, incoming[0].datagram), incoming[1..])
    else PeerAfter(dst, dstPort, peer, incoming[1..])
  }

  lemma {:induction false} DeliveredSnoc(dst: string, dstPort: int, peer: Option<Addr>, incoming: seq<Incoming>, x: Incoming)
    ensures
      var now := PeerAfter(dst, dstPort, peer, incoming);
      && Delivered(dst, dstPort, peer, incoming + [x]) ==
         Delivered(dst, dstPort, peer, incoming) +
         (if x.Arrives? && Accepts(dst, dstPort, now, x.datagram) then [x.datagram] else [])
      && PeerAfter(dst, dstPort, peer, incoming + [x]) ==
         (if x.Arrives? && Accepts(dst, dstPort, now, x.datagram) then Pinned(now, x.datagram) else now)
    decreases |incoming|
  {
    hide Accepts, Pinned;
    if incoming == [] {
      assert incoming + [x] == [x] && [x][1..] == [];
    } else {
      var peer' := if incoming[0].Arrives? && Accepts(dst, dstPort, peer, incoming[0].datagram)
                   then Pinned(peer, incoming[0].datagram) else peer;
      assert (incoming + [x])[1..] == incoming[1..] + [x];
      DeliveredSnoc(dst, dstPort, peer', incoming[1..], x);
    }
  }

  /** The pinned peer is the sender of the first arrival from the expected port. */
  ghost predicate PinnedFirst(incoming: seq<Incoming>, dstPort: int, peer: Option<Addr>) {
    && (peer.None? ==> forall j :: 0 <= j < |incoming| ==> !FromPort(incoming[j], dstPort))
    && (peer.Some? ==> exists f: nat :: First(incoming, dstPort, f) && incoming[f].datagram.from == peer)
  }

  lemma OneFirst(incoming: seq<Incoming>, dstPort: int, f: nat, g: nat)
    requires First(incoming, dstPort, f) && First(incoming, dstPort, g)
    ensures f == g
  {
  }

  lemma FirstPrefix(incoming: seq<Incoming>, dstPort: int, n: nat, f: nat)
    requires f < n <= |incoming|
    ensures First(incoming[..n], dstPort, f) <==> First(incoming, dstPort, f)
  {
  }

  /** Given the first arrivals and the peer they pinned, the filter accepts the next one
      exactly when it belongs to the session. */
  lemma AcceptsBelongs(dst: string, dstPort: int, incoming: seq<Incoming>, k: nat, peer: Option<Addr>)
    requires k < |incoming| && PinnedFirst(incoming[..k], dstPort, peer)
    ensures incoming[k].Arrives? && Accepts(dst, dstPort, peer, incoming[k].datagram) <==> Belongs(dst, dstPort, incoming, k)
  {
    if FromPort(incoming[k], dstPort) {
      var from := incoming[k].datagram.from;
      if peer.None? {
        forall j | 0 <= j < k ensures !FromPort(incoming[j], dstPort) {
          assert incoming[..k][j] == incoming[j];
        }
        assert First(incoming, dstPort, k);
      } else {
        var f: nat :| First(incoming[..k], dstPort, f) && incoming[..k][f].datagram.from == peer;
        FirstPrefix(incoming, dstPort, k, f);
        SameIpCanonical(peer.value.ip, from.value.ip);
        assert First(incoming, dstPort, f);
        if Belongs(dst, dstPort, incoming, k) {
          var g: nat :| g <= k && First(incoming, dstPort, g)
                   && Canonical(incoming[g].datagram.from.value.ip) == Canonical(from.value.ip);
          OneFirst(incoming, dstPort, f, g);
        }
      }
    }
  }

  lemma PinnedNext(dst: string, dstPort: int, incoming: seq<Incoming>, k: nat, peer: Option<Addr>)
    requires k < |incoming| && PinnedFirst(incoming[..k], dstPort, peer)
    ensures
      var x := incoming[k];
      PinnedFirst(incoming[..k + 1], dstPort,
                  if x.Arrives? && Accepts(dst, dstPort, peer, x.datagram) then Pinned(peer, x.datagram) else peer)
  {
    var a, b := incoming[..k], incoming[..k + 1];
    assert b[..k] == a && b[k] == incoming[k];
    if peer.Some? {
      var f: nat :| First(a, dstPort, f) && a[f].datagram.from == peer;
      FirstPrefix(b, dstPort, k, f);
      assert First(b, dstPort, f) && b[f].datagram.from == peer;
    } else {
      forall j | 0 <= j < k ensures !FromPort(b[j], dstPort) {
        assert a[j] == b[j];
      }
      if FromPort(b[k], dstPort) {
        assert First(b, dstPort, k) && b[k].datagram.from == incoming[k].datagram.from;
      }
    }
  }

  lemma {:induction false} DeliveredUpTo(dst: string, dstPort: int, incoming: seq<Incoming>, n: nat)
    requires n <= |incoming|
    ensures Delivered(dst, dstPort, None, incoming[..n]) == Belonging(dst, dstPort, incoming, n)
    ensures PinnedFirst(incoming[..n], dstPort, PeerAfter(dst, dstPort, None, incoming[..n]))
    decreases n
  {
    if n > 0 {
      var k := n - 1;
      DeliveredUpTo(dst, dstPort, incoming, k);
      hide Delivered, PeerAfter, PinnedFirst, Belongs, Accepts, Pinned;
      assert incoming[..n] == incoming[..k] + [incoming[k]];
      var peer := PeerAfter(dst, dstPort, None, incoming[..k]);
      DeliveredSnoc(dst, dstPort, None, incoming[..k], incoming[k]);
      AcceptsBelongs(dst, dstPort, incoming, k, peer);
      PinnedNext(dst, dstPort, incoming, k, peer);
    }
  }

  /** A fresh session delivers exactly the datagrams that belong to it, in order, the
      one that pins the peer included. */
  lemma DeliveredExactly(dst: string, dstPort: int, incoming: seq<Incoming>)
    ensures Delivered(dst, dstPort, None, incoming) == Belonging(dst, dstPort, incoming, |incoming|)
  {
    hide Delivered, Belonging;
    DeliveredUpTo(dst, dstPort, incoming, |incoming|);
    assert incoming[..|incoming|] == incoming;
  }

  lemma {:induction false} BelongingHas(dst: string, dstPort: int, incoming: seq<Incoming>, n: nat, k: nat)
    requires k < n <= |incoming| && Belongs(dst, dstPort, incoming, k)
    ensures incoming[k].datagram in Belonging(dst, dstPort, incoming, n)
    decreases n
  {
    hide Belongs;
    if k < n - 1 {
      BelongingHas(dst, dstPort, incoming, n - 1, k);
    }
  }

  /** The first reply is delivered, and so is every later datagram of its sender. */
  lemma FirstReplyDelivered(dst: string, dstPort: int, incoming: seq<Incoming>, f: nat, k: nat)
    requires First(incoming, dstPort, f) && f <= k < |incoming| && FromPort(incoming[k], dstPort)
    requires Canonical(incoming[k].datagram.from.value.ip) == Canonical(incoming[f].datagram.from.value.ip)
    ensures incoming[k].datagram in Delivered(dst, dstPort, None, incoming)
  {
    assert Belongs(dst, dstPort, incoming, k);
    hide Belongs, First, Delivered;
    DeliveredExactly(dst, dstPort, incoming);
    BelongingHas(dst, dstPort, incoming, |incoming|, k);
  }
}
