/** The two copy loops of a UDP session (tunnel/udp.go) as interleaved atomic steps.

    Each loop owns the stamp of its direction and reads the stamp of the other.
    Reading the clock, storing a stamp and loading one are steps of their own, so
    that the other loop and the clock can move in between. */
module UdpSession {
  import opened Common
  import opened UdpRelay

  /** A packet that a read returned at a time, and the stamp stored for it, if any yet. */
  datatype Arrival = Arrival(at: int, stamp: Option<int>)

  datatype Phase =
    | Top
    | Reading(start: int)
    | Received(start: int, at: int)
    | Clocked(start: int, at: int, v: int)
    | Forwarding(start: int, v: int)
    | Expired(start: int, n: int)
    | Uncapped(start: int, n: int)
    | Ended(exit: Exit)

  /** One direction: its shared stamp, where its loop is, and what happened so far. */
  datatype Loop = Loop(last: int, phase: Phase, arrivals: seq<Arrival>, turns: seq<Turn>)

  datatype Action =
    | Arm | Receive | ReadClock | Store | Forward(ok: bool) | Expire | CheckCap | CheckPeer | Break(eof: bool)

  datatype Side = Origin | Remote

  datatype State = State(clock: int, first: int, origin: Loop, remote: Loop)

  datatype Step = Tick(to: int) | Act(side: Side, action: Action)

  function Start(now: int): State {
    State(now, now, Loop(now, Top, [], []), Loop(now, Top, [], []))
  }

  function On(s: State, d: Side): Loop {
    if d.Origin? then s.origin else s.remote
  }

  function Other(d: Side): Side {
    if d.Origin? then Remote else Origin
  }

  // ----- the steps

  predicate CanAct(l: Loop, a: Action, clock: int, timeout: int, originDir: bool) {
    match a
    case Arm => l.phase.Top?
    case Receive => l.phase.Reading?
    case ReadClock => l.phase.Received?
    case Store => l.phase.Clocked? && l.arrivals != []
    case Forward(_) => l.phase.Forwarding?
    case Expire => l.phase.Reading? && clock >= Deadline(l.phase.start, l.last, timeout, originDir)
    case CheckCap => l.phase.Expired?
    case CheckPeer => l.phase.Uncapped?
    case Break(_) => l.phase.Reading?
  }

  function Acted(l: Loop, a: Action, clock: int, peerLast: int, timeout: int, originDir: bool): Loop
    requires CanAct(l, a, clock, timeout, originDir)
  {
    match a
    case Arm => l.(phase := Reading(clock))
    case Receive => l.(phase := Received(l.phase.start, clock), arrivals := l.arrivals + [Arrival(clock, None)])
    case ReadClock => l.(phase := Clocked(l.phase.start, l.phase.at, clock))
    case Store =>
      l.(last := l.phase.v, phase := Forwarding(l.phase.start, l.phase.v),
         arrivals := l.arrivals[..|l.arrivals| - 1] + [Arrival(l.phase.at, Some(l.phase.v))])
    case Forward(ok) =>
      l.(phase := if ok then Top else Ended(WriteError),
         turns := l.turns + [Turn(l.phase.start, Packet, l.phase.v, peerLast, ok)])
    case Expire => l.(phase := Expired(l.phase.start, clock))
    case CheckCap =>
      if originDir && l.phase.n >= Cap(l.last, timeout) then
        l.(phase := Ended(Capped), turns := l.turns + [Turn(l.phase.start, TimedOut, l.phase.n, peerLast, true)])
      else l.(phase := Uncapped(l.phase.start, l.phase.n))
    case CheckPeer =>
      l.(phase := if peerLast + timeout < l.phase.n then Ended(Idle) else Top,
         turns := l.turns + [Turn(l.phase.start, TimedOut, l.phase.n, peerLast, true)])
    case Break(eof) =>
      l.(phase := Ended(if eof then Closed else ReadError),
         turns := l.turns + [Turn(l.phase.start, if eof then Eof else Failed, clock, peerLast, true)])
  }

  predicate Enabled(s: State, step: Step, timeout: int) {
    match step
    case Tick(to) => s.clock <= to
    case Act(d, a) => CanAct(On(s, d), a, s.clock, timeout, d.Origin?)
  }

  function Apply(s: State, step: Step, timeout: int): State
    requires Enabled(s, step, timeout)
  {
    match step
    case Tick(to) => s.(clock := to)
    case Act(d, a) =>
      var l := Acted(On(s, d), a, s.clock, On(s, Other(d)).last, timeout, d.Origin?);
      if d.Origin? then s.(origin := l) else s.(remote := l)
  }

  // ----- what every step keeps

  predicate InHand(p: Phase) {
    p.Received? || p.Clocked?
  }

  /** The stamp of the last packet that has one. */
  function LastStamp(arrivals: seq<Arrival>, first: int): int {
    if arrivals == [] then first
    else if arrivals[|arrivals| - 1].stamp.Some? then arrivals[|arrivals| - 1].stamp.value
    else LastStamp(arrivals[..|arrivals| - 1], first)
  }

  ghost predicate ArrivalOk(p: Arrival, last: int, clock: int) {
    p.at <= clock && (p.stamp.Some? ==> p.at <= p.stamp.value <= last)
  }

  /** Only the packet that the loop has in hand has no stamp, and the shared stamp is
      that of the last packet stamped. */
  ghost predicate ArrivalsOk(l: Loop, clock: int, first: int) {
    && first <= l.last <= clock
    && l.last == LastStamp(l.arrivals, first)
    && (forall k :: 0 <= k < |l.arrivals| ==> ArrivalOk(l.arrivals[k], l.last, clock))
    && (forall k :: 0 <= k < |l.arrivals| && l.arrivals[k].stamp.None? ==>
          k == |l.arrivals| - 1 && InHand(l.phase))
    && (InHand(l.phase) ==> l.arrivals != [] && l.arrivals[|l.arrivals| - 1] == Arrival(l.phase.at, None))
    && (l.phase.Clocked? ==> l.phase.at <= l.phase.v <= clock && l.last <= l.phase.v)
  }

  function Finish(first: int, turns: seq<Turn>): int {
    if turns == [] then first else turns[|turns| - 1].finish
  }

  /** The times that a phase remembers are in order. */
  ghost predicate TimesOk(p: Phase, from: int, clock: int) {
    match p
    case Top => from <= clock
    case Reading(start) => from <= start <= clock
    case Received(start, at) => from <= start <= at <= clock
    case Clocked(start, at, v) => from <= start <= at <= v <= clock
    case Forwarding(start, v) => from <= start <= v <= clock
    case Expired(start, n) => from <= start <= n <= clock
    case Uncapped(start, n) => from <= start <= n <= clock
    case Ended(_) => from <= clock
  }

  /** The completed turns are a plausible run of the copy loop, as far as it has got. */
  ghost predicate TurnsOk(l: Loop, clock: int, first: int, timeout: int, originDir: bool) {
    var k := |l.turns|;
    && Plausible(first, l.turns, timeout, originDir)
    && TimesOk(l.phase, Finish(first, l.turns), clock)
    && (l.phase.Forwarding? ==> l.last == l.phase.v)
    && (!l.phase.Forwarding? ==> l.last == StampAt(first, l.turns, k))
    && (!l.phase.Ended? ==> Reaches(first, l.turns, k, timeout, originDir))
    && (l.phase.Ended? ==>
          && k > 0 && Reaches(first, l.turns, k - 1, timeout, originDir)
          && l.phase.exit == After(l.turns[k - 1], StampAt(first, l.turns, k - 1), timeout, originDir))
    && (l.phase.Expired? || l.phase.Uncapped? ==>
          Deadline(l.phase.start, l.last, timeout, originDir) <= l.phase.n)
    && (l.phase.Uncapped? && originDir ==> l.phase.n < Cap(l.last, timeout))
  }

  ghost predicate LoopOk(l: Loop, clock: int, first: int, timeout: int, originDir: bool) {
    ArrivalsOk(l, clock, first) && TurnsOk(l, clock, first, timeout, originDir)
  }

  ghost predicate Inv(s: State, timeout: int) {
    LoopOk(s.origin, s.clock, s.first, timeout, true) && LoopOk(s.remote, s.clock, s.first, timeout, false)
  }

  lemma ArrivalsReceive(l: Loop, clock: int, first: int)
    requires ArrivalsOk(l, clock, first) && l.phase.Reading?
    ensures ArrivalsOk(l.(phase := Received(l.phase.start, clock), arrivals := l.arrivals + [Arrival(clock, None)]), clock, first)
  {
    var arrivals' := l.arrivals + [Arrival(clock, None)];
    assert arrivals'[..|l.arrivals|] == l.arrivals;
    forall k | 0 <= k < |arrivals'| ensures ArrivalOk(arrivals'[k], l.last, clock) {
      assert k < |l.arrivals| ==> ArrivalOk(l.arrivals[k], l.last, clock);
    }
  }

  lemma ArrivalsStore(l: Loop, clock: int, first: int)
    requires ArrivalsOk(l, clock, first) && l.phase.Clocked? && l.arrivals != []
    ensures
      ArrivalsOk(l.(last := l.phase.v, phase := Forwarding(l.phase.start, l.phase.v),
                    arrivals := l.arrivals[..|l.arrivals| - 1] + [Arrival(l.phase.at, Some(l.phase.v))]), clock, first)
  {
    var arrivals' := l.arrivals[..|l.arrivals| - 1] + [Arrival(l.phase.at, Some(l.phase.v))];
    hide LastStamp;
    LastStampSnoc(l.arrivals[..|l.arrivals| - 1], Arrival(l.phase.at, Some(l.phase.v)), first);
    forall k | 0 <= k < |arrivals'| ensures ArrivalOk(arrivals'[k], l.phase.v, clock) && arrivals'[k].stamp.Some? {
      assert k < |l.arrivals| - 1 ==> arrivals'[k] == l.arrivals[k] && ArrivalOk(l.arrivals[k], l.last, clock);
    }
  }

  lemma LastStampSnoc(arrivals: seq<Arrival>, p: Arrival, first: int)
    requires p.stamp.Some?
    ensures LastStamp(arrivals + [p], first) == p.stamp.value
  {
  }

  lemma ArrivalsActed(l: Loop, a: Action, clock: int, first: int, peerLast: int, timeout: int, originDir: bool)
    requires ArrivalsOk(l, clock, first) && CanAct(l, a, clock, timeout, originDir)
    ensures ArrivalsOk(Acted(l, a, clock, peerLast, timeout, originDir), clock, first)
  {
    if a.Receive? {
      hide ArrivalsOk;
      ArrivalsReceive(l, clock, first);
    } else if a.Store? {
      hide ArrivalsOk;
      ArrivalsStore(l, clock, first);
    } else {
      hide LastStamp, ArrivalOk;
      assert Acted(l, a, clock, peerLast, timeout, originDir).arrivals == l.arrivals;
    }
  }

  lemma {:induction false} StampAtPrefix(first: int, turns: seq<Turn>, turn: Turn, k: nat)
    requires k <= |turns|
    ensures StampAt(first, turns + [turn], k) == StampAt(first, turns, k)
  {
    if k > 0 {
      StampAtPrefix(first, turns, turn, k - 1);
      assert (turns + [turn])[k - 1] == turns[k - 1];
    }
  }

  lemma PlausibleAppend(first: int, turns: seq<Turn>, turn: Turn, timeout: int, originDir: bool, k: nat)
    requires Plausible(first, turns, timeout, originDir) && k <= |turns|
    requires Finish(first, turns) <= turn.start <= turn.finish
    requires turn.read.TimedOut? ==>
      Deadline(turn.start, StampAt(first, turns, |turns|), timeout, originDir) <= turn.finish
    ensures PlausibleTurn(first, turns + [turn], k, timeout, originDir)
  {
    var turns' := turns + [turn];
    StampAtPrefix(first, turns, turn, k);
    hide StampAt, Deadline;
    if k < |turns| {
      assert PlausibleTurn(first, turns, k, timeout, originDir);
      assert turns'[k] == turns[k];
    }
    assert k > 0 ==> turns'[k - 1] == turns[k - 1];
  }

  lemma ReachesAppend(first: int, turns: seq<Turn>, turn: Turn, timeout: int, originDir: bool, k: nat)
    requires Reaches(first, turns, |turns|, timeout, originDir) && k < |turns|
    ensures After((turns + [turn])[k], StampAt(first, turns + [turn], k), timeout, originDir) == Running
  {
    StampAtPrefix(first, turns, turn, k);
    hide StampAt, After;
    assert (turns + [turn])[k] == turns[k];
  }

  /** Completing a turn extends the run of the copy loop by it. */
  lemma TurnCompleted(first: int, turns: seq<Turn>, turn: Turn, timeout: int, originDir: bool)
    requires Plausible(first, turns, timeout, originDir) && Reaches(first, turns, |turns|, timeout, originDir)
    requires Finish(first, turns) <= turn.start <= turn.finish
    requires turn.read.TimedOut? ==>
      Deadline(turn.start, StampAt(first, turns, |turns|), timeout, originDir) <= turn.finish
    ensures
      var turns', last := turns + [turn], StampAt(first, turns, |turns|);
      && Plausible(first, turns', timeout, originDir)
      && Reaches(first, turns', |turns|, timeout, originDir)
      && StampAt(first, turns', |turns|) == last && StampAt(first, turns', |turns| + 1) == Stamp(turn, last)
      && (Reaches(first, turns', |turns| + 1, timeout, originDir) <==> After(turn, last, timeout, originDir) == Running)
  {
    var turns', n := turns + [turn], |turns|;
    hide StampAt, After, Deadline, PlausibleTurn, Finish, Stamp;
    forall k | 0 <= k < n + 1 ensures PlausibleTurn(first, turns', k, timeout, originDir) {
      PlausibleAppend(first, turns, turn, timeout, originDir, k);
    }
    forall k | 0 <= k < n ensures After(turns'[k], StampAt(first, turns', k), timeout, originDir) == Running {
      ReachesAppend(first, turns, turn, timeout, originDir, k);
    }
    StampAtPrefix(first, turns, turn, n);
    StampAtLast(first, turns, turn);
    assert turns'[n] == turn;
    ReachesNext(first, turns', n, timeout, originDir);
  }

  lemma StampAtLast(first: int, turns: seq<Turn>, turn: Turn)
    ensures StampAt(first, turns + [turn], |turns| + 1) == Stamp(turn, StampAt(first, turns + [turn], |turns|))
  {
  }

  /** A step that completes no turn. */
  predicate WithinTurn(l: Loop, a: Action, timeout: int, originDir: bool) {
    || a.Arm? || a.Receive? || a.ReadClock? || a.Store? || a.Expire?
    || (a.CheckCap? && l.phase.Expired? && !(originDir && l.phase.n >= Cap(l.last, timeout)))
  }

  lemma TurnsWithin(l: Loop, a: Action, clock: int, first: int, peerLast: int, timeout: int, originDir: bool)
    requires TurnsOk(l, clock, first, timeout, originDir) && CanAct(l, a, clock, timeout, originDir)
    requires WithinTurn(l, a, timeout, originDir)
    ensures TurnsOk(Acted(l, a, clock, peerLast, timeout, originDir), clock, first, timeout, originDir)
  {
    hide Plausible, Reaches, StampAt, After;
  }

  lemma TurnsFinished(l: Loop, a: Action, clock: int, first: int, peerLast: int, timeout: int, originDir: bool)
    requires TurnsOk(l, clock, first, timeout, originDir) && CanAct(l, a, clock, timeout, originDir)
    requires !WithinTurn(l, a, timeout, originDir)
    ensures TurnsOk(Acted(l, a, clock, peerLast, timeout, originDir), clock, first, timeout, originDir)
  {
    hide Plausible, Reaches, StampAt;
    var l' := Acted(l, a, clock, peerLast, timeout, originDir);
    var turn := l'.turns[|l.turns|];
    assert l'.turns == l.turns + [turn];
    TurnCompleted(first, l.turns, turn, timeout, originDir);
  }

  lemma LoopActed(l: Loop, a: Action, clock: int, first: int, peerLast: int, timeout: int, originDir: bool)
    requires LoopOk(l, clock, first, timeout, originDir) && CanAct(l, a, clock, timeout, originDir)
    ensures LoopOk(Acted(l, a, clock, peerLast, timeout, originDir), clock, first, timeout, originDir)
  {
    hide ArrivalsOk, TurnsOk, CanAct, Acted, WithinTurn;
    ArrivalsActed(l, a, clock, first, peerLast, timeout, originDir);
    if WithinTurn(l, a, timeout, originDir) {
      TurnsWithin(l, a, clock, first, peerLast, timeout, originDir);
    } else {
      TurnsFinished(l, a, clock, first, peerLast, timeout, originDir);
    }
  }

  lemma LoopTicked(l: Loop, clock: int, to: int, first: int, timeout: int, originDir: bool)
    requires LoopOk(l, clock, first, timeout, originDir) && clock <= to
    ensures LoopOk(l, to, first, timeout, originDir)
  {
    hide Plausible, Reaches, StampAt, After, LastStamp;
    forall k | 0 <= k < |l.arrivals| ensures ArrivalOk(l.arrivals[k], l.last, to) {
      assert ArrivalOk(l.arrivals[k], l.last, clock);
    }
  }

  /** Every step of either loop, and of the clock, keeps the invariant. */
  lemma StepInv(s: State, step: Step, timeout: int)
    requires Inv(s, timeout) && Enabled(s, step, timeout)
    ensures Inv(Apply(s, step, timeout), timeout)
  {
    hide LoopOk, CanAct, Acted;
    match step
    case Tick(to) =>
      LoopTicked(s.origin, s.clock, to, s.first, timeout, true);
      LoopTicked(s.remote, s.clock, to, s.first, timeout, false);
    case Act(d, a) =>
      LoopActed(On(s, d), a, s.clock, s.first, On(s, Other(d)).last, timeout, d.Origin?);
  }

  // ----- all runs

  ghost predicate Runs(s: State, steps: seq<Step>, timeout: int)
    decreases |steps|
  {
    steps != [] ==> Enabled(s, steps[0], timeout) && Runs(Apply(s, steps[0], timeout), steps[1..], timeout)
  }

  ghost function Reached(s: State, steps: seq<Step>, timeout: int): State
    requires Runs(s, steps, timeout)
    decreases |steps|
  {
    if steps == [] then s else Reached(Apply(s, steps[0], timeout), steps[1..], timeout)
  }

  lemma StartInv(now: int, timeout: int)
    ensures Inv(Start(now), timeout)
  {
  }

  lemma {:induction false} RunInv(s: State, steps: seq<Step>, timeout: int)
    requires Inv(s, timeout) && Runs(s, steps, timeout)
    ensures Inv(Reached(s, steps, timeout), timeout) && Reached(s, steps, timeout).first == s.first
    decreases |steps|
  {
    if steps != [] {
      assert Apply(s, steps[0], timeout).first == s.first;
      hide Inv, Enabled, Apply;
      StepInv(s, steps[0], timeout);
      RunInv(Apply(s, steps[0], timeout), steps[1..], timeout);
    }
  }

  lemma Reachable(now: int, steps: seq<Step>, timeout: int, d: Side)
    requires Runs(Start(now), steps, timeout)
    ensures
      var s := Reached(Start(now), steps, timeout);
      LoopOk(On(s, d), s.clock, now, timeout, d.Origin?)
  {
    hide LoopOk, Runs, Reached;
    StartInv(now, timeout);
    RunInv(Start(now), steps, timeout);
  }

  /** In every reachable state the shared stamp of a direction is the stamp of its
      last stamped packet, or the start of the session, and no stamp is later. */
  lemma StampIsLastPacket(now: int, steps: seq<Step>, timeout: int, d: Side)
    requires Runs(Start(now), steps, timeout)
    ensures
      var l := On(Reached(Start(now), steps, timeout), d);
      && l.last == LastStamp(l.arrivals, now) && l.last >= now
      && (forall k :: 0 <= k < |l.arrivals| && l.arrivals[k].stamp.Some? ==>
            l.arrivals[k].at <= l.arrivals[k].stamp.value <= l.last)
      && (l.last == now || exists k :: 0 <= k < |l.arrivals| && l.arrivals[k].stamp == Some(l.last))
  {
    hide Runs, Reached, TurnsOk;
    Reachable(now, steps, timeout, d);
    var l := On(Reached(Start(now), steps, timeout), d);
    forall k | 0 <= k < |l.arrivals| && l.arrivals[k].stamp.Some?
      ensures l.arrivals[k].at <= l.arrivals[k].stamp.value <= l.last
    {
      assert ArrivalOk(l.arrivals[k], l.last, Reached(Start(now), steps, timeout).clock);
    }
    LastStampFound(l.arrivals, now);
  }

  lemma {:induction false} LastStampFound(arrivals: seq<Arrival>, first: int)
    ensures
      var last := LastStamp(arrivals, first);
      last == first || exists k :: 0 <= k < |arrivals| && arrivals[k].stamp == Some(last)
  {
    if arrivals != [] {
      var n := |arrivals| - 1;
      if arrivals[n].stamp.None? {
        LastStampFound(arrivals[..n], first);
        var last := LastStamp(arrivals, first);
        if last != first {
          var k :| 0 <= k < n && arrivals[..n][k].stamp == Some(last);
          assert arrivals[k].stamp == Some(last);
        }
      }
    }
  }

  /** What a loop knows of the other one when it looks at its stamp. */
  ghost predicate StampedBefore(l: Loop, first: int, timeout: int, n: int) {
    && first + timeout < n
    && (forall k :: 0 <= k < |l.arrivals| && l.arrivals[k].stamp.Some? ==> l.arrivals[k].stamp.value + timeout < n)
  }

  /** The peer has received nothing for more than the timeout before n. */
  ghost predicate SilentSince(l: Loop, timeout: int, n: int) {
    forall k :: 0 <= k < |l.arrivals| ==> l.arrivals[k].at + timeout < n
  }

  /** A loop that timed out at n below its cap ends as idle exactly when every packet
      that the other loop has stamped, and the start of the session, were stamped more
      than the timeout before n. */
  lemma IdleExit(now: int, steps: seq<Step>, timeout: int, d: Side)
    requires timeout > 0 && Runs(Start(now), steps, timeout)
    requires Enabled(Reached(Start(now), steps, timeout), Act(d, CheckPeer), timeout)
    ensures
      var s := Reached(Start(now), steps, timeout);
      On(Apply(s, Act(d, CheckPeer), timeout), d).phase == Ended(Idle) <==>
      StampedBefore(On(s, Other(d)), now, timeout, On(s, d).phase.n)
  {
    hide Runs, Reached, TurnsOk;
    StampIsLastPacket(now, steps, timeout, Other(d));
  }

  /** At an idle exit the peer was really silent exactly if the other loop has no
      packet in hand, received but not stamped yet, that came within the timeout. */
  lemma SilentExactly(now: int, steps: seq<Step>, timeout: int, d: Side)
    requires timeout > 0 && Runs(Start(now), steps, timeout)
    requires Enabled(Reached(Start(now), steps, timeout), Act(d, CheckPeer), timeout)
    requires
      On(Apply(Reached(Start(now), steps, timeout), Act(d, CheckPeer), timeout), d).phase == Ended(Idle)
    ensures
      var s := Reached(Start(now), steps, timeout);
      var peer, n := On(s, Other(d)), On(s, d).phase.n;
      SilentSince(peer, timeout, n) <==> !(InHand(peer.phase) && peer.phase.at + timeout >= n)
  {
    hide Runs, Reached, TurnsOk, Apply, Enabled;
    StampIsLastPacket(now, steps, timeout, Other(d));
    IdleExit(now, steps, timeout, d);
    Reachable(now, steps, timeout, Other(d));
    var s := Reached(Start(now), steps, timeout);
    var peer := On(s, Other(d));
    if InHand(peer.phase) {
      assert peer.arrivals[|peer.arrivals| - 1].at == peer.phase.at;
    }
  }

  /** Whatever the remote loop does, the origin loop completes at most three timeouts
      in a row, in every reachable state. */
  lemma RenewalBounded(now: int, steps: seq<Step>, timeout: int, i: nat, j: nat)
    requires timeout > 0 && Runs(Start(now), steps, timeout)
    requires Silent(Reached(Start(now), steps, timeout).origin.turns, i, j)
    ensures j - i <= 3
  {
    hide Runs, Reached, ArrivalsOk, Plausible, StampAt, After, Cap, Deadline;
    Reachable(now, steps, timeout, Origin);
    var s := Reached(Start(now), steps, timeout);
    if j > 0 {
      AtMostThreeTimeouts(now, s.origin.turns, i, j, timeout);
    }
  }

  lemma RunCons(s: State, step: Step, rest: seq<Step>, timeout: int)
    requires Enabled(s, step, timeout) && Runs(Apply(s, step, timeout), rest, timeout)
    ensures Runs(s, [step] + rest, timeout)
    ensures Reached(s, [step] + rest, timeout) == Reached(Apply(s, step, timeout), rest, timeout)
  {
    assert ([step] + rest)[1..] == rest;
  }

  /** The interleaving in which the peer was not silent: the remote loop returned from
      its read at 9 and has not stamped the packet when the origin loop, timed out at
      11 with a timeout of 10, looks at the stamp and ends as idle. */
  lemma UnstampedPacketMissed()
    ensures exists steps: seq<Step> ::
      && Runs(Start(0), steps, 10)
      && var s := Reached(Start(0), steps, 10);
         && Enabled(s, Act(Origin, CheckPeer), 10)
         && On(Apply(s, Act(Origin, CheckPeer), 10), Origin).phase == Ended(Idle)
         && !SilentSince(s.remote, 10, s.origin.phase.n)
  {
    var o, r := Loop(0, Top, [], []), Loop(0, Top, [], []);
    var r2 := r.(phase := Received(0, 9), arrivals := [Arrival(9, None)]);
    var s0 := Start(0);
    var s1 := State(0, 0, o, r.(phase := Reading(0)));
    var s2 := State(0, 0, o.(phase := Reading(0)), r.(phase := Reading(0)));
    var s3 := s2.(clock := 9);
    var s4 := s3.(remote := r2);
    var s5 := s4.(clock := 11);
    var s6 := s5.(origin := o.(phase := Expired(0, 11)));
    var s7 := s5.(origin := o.(phase := Uncapped(0, 11)));
    assert [] + [Arrival(9, None)] == [Arrival(9, None)];
    hide Runs, Reached;
    RunNone(s7, 10);
    var t6 := [Act(Origin, CheckCap)];
    assert t6 == [Act(Origin, CheckCap)] + [];
    RunCons(s6, Act(Origin, CheckCap), [], 10);
    var t5 := [Act(Origin, Expire)] + t6;
    RunCons(s5, Act(Origin, Expire), t6, 10);
    var t4 := [Tick(11)] + t5;
    RunCons(s4, Tick(11), t5, 10);
    var t3 := [Act(Remote, Receive)] + t4;
    RunCons(s3, Act(Remote, Receive), t4, 10);
    var t2 := [Tick(9)] + t3;
    RunCons(s2, Tick(9), t3, 10);
    var t1 := [Act(Origin, Arm)] + t2;
    RunCons(s1, Act(Origin, Arm), t2, 10);
    var t0 := [Act(Remote, Arm)] + t1;
    RunCons(s0, Act(Remote, Arm), t1, 10);
    assert Reached(Start(0), t0, 10) == s7;
    assert s7.remote.arrivals[0].at == 9;
  }

  lemma RunNone(s: State, timeout: int)
    ensures Runs(s, [], timeout) && Reached(s, [], timeout) == s
  {
  }
}
