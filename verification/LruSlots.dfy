/** The collision buckets of the LRU, as columns of link fields.

    `order` lists the live slots, `rings[b]` the slots of bucket b starting at
    the bucket's entry point.  The lemmas say what each pointer manipulation
    does to these lists; the recency ring is handled by module Rings. */
module LruSlots {
  import opened Common
  import opened Rings

  const EMPTY_BUCKET: nat := 0xFFFF_FFFF

  /** next/prev thread the bucket rings, pos is the bucket of each slot, start
      the entry point of each bucket. */
  datatype Buckets = Buckets(next: seq<nat>, prev: seq<nat>, pos: seq<nat>, start: seq<nat>)

  ghost predicate Sized(c: Buckets) {
    |c.next| == |c.prev| == |c.pos| == |c.start|
  }

  ghost predicate Chain(c: Buckets, order: seq<nat>, r: seq<nat>, b: nat)
    requires Sized(c) && b < |c.start|
  {
    && Ring(c.next, c.prev, r)
    && c.start[b] == (if r == [] then EMPTY_BUCKET else r[0])
    && (forall i :: 0 <= i < |r| ==> r[i] in order && c.pos[r[i]] == b)
  }

  /** Every live slot is in the ring of its bucket. */
  ghost predicate Covered(c: Buckets, order: seq<nat>, rings: seq<seq<nat>>) {
    forall s :: s in order ==> s < |c.pos| && c.pos[s] < |rings| && s in rings[c.pos[s]]
  }

  /** Each bucket's ring is exactly the live slots of that bucket. */
  ghost predicate Bucketed(c: Buckets, order: seq<nat>, rings: seq<seq<nat>>) {
    && Sized(c) && |rings| == |c.start|
    && (forall b :: 0 <= b < |rings| ==> Chain(c, order, rings[b], b))
    && Covered(c, order, rings)
  }

  lemma RingMember(next: seq<nat>, prev: seq<nat>, r: seq<nat>, s: nat)
    requires Ring(next, prev, r) && s in r
    ensures s < |next| && next[s] in r && prev[s] in r
    ensures next[s] < |next| && prev[s] < |next|
  {
    hide Ring;
    var i :| 0 <= i < |r| && r[i] == s;
    RingAt(next, prev, r, i);
    RingAt(next, prev, r, Before(r, i));
    SuccMember(r, i);
    RingAt(next, prev, r, Before(r, Before(r, i)));
  }

  /** Reordering the live slots does not affect the buckets. */
  lemma Reordered(c: Buckets, order: seq<nat>, rings: seq<seq<nat>>, order': seq<nat>)
    requires Bucketed(c, order, rings)
    requires forall s :: s in order <==> s in order'
    ensures Bucketed(c, order', rings)
  {
    forall b | 0 <= b < |rings| ensures Chain(c, order', rings[b], b) {
      assert Chain(c, order, rings[b], b);
    }
  }

  /** The slots with changed links, `changed`, are not in this chain. */
  lemma OtherChain(c: Buckets, order: seq<nat>, c': Buckets, order': seq<nat>, r: seq<nat>, b: nat, changed: set<nat>)
    requires Sized(c) && Sized(c') && |c'.next| == |c.next| && b < |c.start|
    requires Chain(c, order, r, b) && c'.start[b] == c.start[b]
    requires forall s :: 0 <= s < |c.next| && s !in changed ==>
      c'.next[s] == c.next[s] && c'.prev[s] == c.prev[s] && c'.pos[s] == c.pos[s]
    requires forall i :: 0 <= i < |r| ==> r[i] !in changed && r[i] in order'
    ensures Chain(c', order', r, b)
  {
    RingFrame(c.next, c.prev, c'.next, c'.prev, r);
  }

  // ----- taking a live slot out of its bucket

  function Unlinked(c: Buckets, pos: nat): Buckets
    requires Sized(c) && pos < |c.next| && c.pos[pos] < |c.start|
    requires c.prev[pos] < |c.next| && c.next[pos] < |c.next|
  {
    if c.prev[pos] == c.next[pos] && c.prev[pos] == pos then
      c.(start := c.start[c.pos[pos] := EMPTY_BUCKET])
    else
      c.(next := c.next[c.prev[pos] := c.next[pos]],
         prev := c.prev[c.next[pos] := c.prev[pos]],
         start := c.start[c.pos[pos] := c.next[pos]])
  }

  ghost predicate InBucket(c: Buckets, pos: nat) {
    && Sized(c) && pos < |c.next| && c.pos[pos] < |c.start|
    && c.prev[pos] < |c.next| && c.next[pos] < |c.next|
  }

  lemma LiveInBucket(c: Buckets, order: seq<nat>, rings: seq<seq<nat>>, pos: nat) returns (j: nat)
    requires Bucketed(c, order, rings) && pos in order
    ensures InBucket(c, pos)
    ensures j < |rings[c.pos[pos]]| && rings[c.pos[pos]][j] == pos
    ensures c.prev[pos] in rings[c.pos[pos]] && c.next[pos] in rings[c.pos[pos]]
  {
    var b := c.pos[pos];
    assert Chain(c, order, rings[b], b);
    RingMember(c.next, c.prev, rings[b], pos);
    j :| 0 <= j < |rings[b]| && rings[b][j] == pos;
  }

  function RingWithout(r: seq<nat>, j: nat): seq<nat>
    requires j < |r|
  {
    r[j + 1..] + r[..j]
  }

  lemma RingWithoutMembers(r: seq<nat>, j: nat)
    requires Distinct(r) && j < |r|
    ensures forall s :: s in RingWithout(r, j) <==> s in r && s != r[j]
  {
    var r' := RingWithout(r, j);
    forall s | s in r && s != r[j] ensures s in r' {
      var i :| 0 <= i < |r| && r[i] == s;
      assert r'[if i > j then i - j - 1 else |r| - j - 1 + i] == s;
    }
    assert forall i :: 0 <= i < |r'| ==> r'[i] == r[if i < |r| - j - 1 then i + j + 1 else i + j + 1 - |r|];
  }

  /** The neighbours of a slot in its ring. */
  lemma Neighbours(next: seq<nat>, prev: seq<nat>, r: seq<nat>, j: nat)
    requires Ring(next, prev, r) && j < |r|
    ensures r[j] < |next| == |prev| && next[r[j]] == Succ(r, j) && (|r| == 1 <==> next[r[j]] == r[j])
    ensures |r| == 1 ==> prev[r[j]] == r[j]
    ensures |r| > 1 ==> RingWithout(r, j) != [] && next[r[j]] == RingWithout(r, j)[0]
    ensures |r| == 1 ==> RingWithout(r, j) == []
  {
    RingParts(next, prev, r);
    hide Ring;
    RingAt(next, prev, r, j);
    RingAt(next, prev, r, Before(r, j));
    SuccDistinct(r, j, j);
  }

  lemma UnlinkRing(c: Buckets, r: seq<nat>, j: nat, b: nat)
    requires Sized(c) && b < |c.start| && Ring(c.next, c.prev, r) && j < |r| && c.pos[r[j]] == b
    ensures InBucket(c, r[j])
    ensures
      var c', r' := Unlinked(c, r[j]), RingWithout(r, j);
      && Ring(c'.next, c'.prev, r')
      && c'.start[b] == (if r' == [] then EMPTY_BUCKET else r'[0])
      && (r' == [] ==> c'.prev[r[j]] == r[j])
  {
    hide Ring, Succ, RingWithout;
    assert r[j] in r;
    RingMember(c.next, c.prev, r, r[j]);
    RingRemoved(c.next, c.prev, r, j);
    Neighbours(c.next, c.prev, r, j);
    EmptyRing(c.next, c.prev);
  }

  lemma RingRemoved(next: seq<nat>, prev: seq<nat>, r: seq<nat>, k: nat)
    requires Ring(next, prev, r) && k < |r|
    ensures prev[r[k]] < |next| && next[r[k]] < |next|
    ensures Ring(next[prev[r[k]] := next[r[k]]], prev[next[r[k]] := prev[r[k]]], RingWithout(r, k))
  {
    RingRemove(next, prev, r, k);
  }

  lemma EmptyRing(next: seq<nat>, prev: seq<nat>)
    requires |next| == |prev|
    ensures Ring(next, prev, [])
  {
  }

  lemma UnlinkOwn(c: Buckets, order: seq<nat>, r: seq<nat>, k: nat, j: nat, b: nat)
    requires Sized(c) && b < |c.start| && Chain(c, order, r, b) && Distinct(order)
    requires k < |order| && j < |r| && r[j] == order[k] && InBucket(c, r[j])
    ensures Chain(Unlinked(c, r[j]), Without(order, k), RingWithout(r, j), b)
    ensures RingWithout(r, j) == [] ==> Unlinked(c, r[j]).prev[r[j]] == r[j]
  {
    UnlinkRing(c, r, j, b);
    WithoutDistinct(order, k);
    RingWithoutMembers(r, j);
    var r' := RingWithout(r, j);
    forall i | 0 <= i < |r'| ensures r'[i] in Without(order, k) && c.pos[r'[i]] == b {
      assert r'[i] in r';
      assert r'[i] in r && r'[i] != order[k];
    }
  }

  lemma UnlinkOther(c: Buckets, order: seq<nat>, r: seq<nat>, b: nat, pos: nat, k: nat)
    requires InBucket(c, pos) && c.pos[c.prev[pos]] == c.pos[pos] == c.pos[c.next[pos]]
    requires b < |c.start| && b != c.pos[pos] && Chain(c, order, r, b) && Distinct(order)
    requires k < |order| && order[k] == pos
    ensures Chain(Unlinked(c, pos), Without(order, k), r, b)
  {
    WithoutDistinct(order, k);
    forall i | 0 <= i < |r| ensures r[i] !in {c.prev[pos], c.next[pos]} && r[i] in Without(order, k) {
      assert c.pos[r[i]] == b;
    }
    OtherChain(c, order, Unlinked(c, pos), Without(order, k), r, b, {c.prev[pos], c.next[pos]});
  }

  lemma NeighboursInBucket(c: Buckets, order: seq<nat>, r: seq<nat>, b: nat, pos: nat)
    requires Sized(c) && b < |c.start| && Chain(c, order, r, b) && pos in r
    ensures InBucket(c, pos) && c.pos[pos] == b
    ensures c.pos[c.prev[pos]] == b && c.pos[c.next[pos]] == b
  {
    RingMember(c.next, c.prev, r, pos);
  }

  lemma CoveredWithout(c: Buckets, c': Buckets, order: seq<nat>, rings: seq<seq<nat>>, k: nat, b: nat, j: nat)
    requires Covered(c, order, rings) && Distinct(order) && c'.pos == c.pos
    requires k < |order| && b < |rings| && j < |rings[b]| && rings[b][j] == order[k] && Distinct(rings[b])
    ensures Covered(c', Without(order, k), rings[b := RingWithout(rings[b], j)])
  {
    WithoutDistinct(order, k);
    RingWithoutMembers(rings[b], j);
  }

  lemma UnlinkedParts(c: Buckets, pos: nat)
    requires InBucket(c, pos)
    ensures var c' := Unlinked(c, pos); Sized(c') && |c'.start| == |c.start| && c'.pos == c.pos
  {
  }

  lemma ChainDistinct(c: Buckets, order: seq<nat>, r: seq<nat>, b: nat)
    requires Sized(c) && b < |c.start| && Chain(c, order, r, b)
    ensures Distinct(r)
  {
  }

  /** Evicting a live slot removes it from its bucket and leaves all others. */
  lemma EvictBuckets(c: Buckets, order: seq<nat>, rings: seq<seq<nat>>, k: nat, b: nat, j: nat)
    requires Bucketed(c, order, rings) && Distinct(order) && k < |order| && InBucket(c, order[k])
    requires b == c.pos[order[k]] && j < |rings[b]| && rings[b][j] == order[k]
    ensures
      var c' := Unlinked(c, order[k]);
      && Bucketed(c', Without(order, k), rings[b := RingWithout(rings[b], j)])
      && (RingWithout(rings[b], j) == [] ==> c'.prev[order[k]] == order[k])
  {
    var pos := order[k];
    var c' := Unlinked(c, pos);
    var rings' := rings[b := RingWithout(rings[b], j)];
    assert Chain(c, order, rings[b], b);
    UnlinkedParts(c, pos);
    ChainDistinct(c, order, rings[b], b);
    hide Chain, Unlinked, RingWithout, Without, Covered;
    NeighboursInBucket(c, order, rings[b], b, pos);
    UnlinkOwn(c, order, rings[b], k, j, b);
    CoveredWithout(c, c', order, rings, k, b, j);
    forall b' | 0 <= b' < |rings'| ensures Chain(c', Without(order, k), rings'[b'], b') {
      assert Chain(c, order, rings[b'], b');
      if b' != b { UnlinkOther(c, order, rings[b'], b', pos, k); }
    }
  }

  // ----- putting a free slot into a bucket

  /** The columns after `pos` was linked in front of the ring r of bucket b. */
  function Pushed(c: Buckets, r: seq<nat>, b: nat, pos: nat): Buckets
    requires Sized(c) && pos < |c.next| && b < |c.start|
    requires r != [] ==> r[0] < |c.next| && c.prev[r[0]] < |c.next|
  {
    var d := c.(pos := c.pos[pos := b], start := c.start[b := pos]);
    if r == [] then d.(next := c.next[pos := pos], prev := c.prev[pos := pos])
    else
      var last := c.prev[r[0]];
      d.(next := c.next[pos := r[0]][last := pos], prev := c.prev[pos := last][r[0] := pos])
  }

  ghost predicate Pushable(c: Buckets, r: seq<nat>, b: nat, pos: nat) {
    && Sized(c) && pos < |c.next| && b < |c.start|
    && (r != [] ==> r[0] < |c.next| && c.prev[r[0]] < |c.next|)
  }

  lemma ChainPushable(c: Buckets, order: seq<nat>, r: seq<nat>, b: nat, pos: nat)
    requires Sized(c) && b < |c.start| && Chain(c, order, r, b) && pos < |c.next|
    ensures Pushable(c, r, b, pos)
    ensures r != [] ==> c.prev[r[0]] == r[|r| - 1] && c.pos[c.prev[r[0]]] == c.pos[r[0]] == b
  {
    if r != [] {
      assert c.prev[Succ(r, |r| - 1)] == r[|r| - 1];
    }
  }

  lemma PushRing(c: Buckets, r: seq<nat>, b: nat, pos: nat)
    requires Pushable(c, r, b, pos) && Ring(c.next, c.prev, r) && pos !in r
    requires r != [] ==> c.prev[r[0]] == r[|r| - 1]
    ensures var c' := Pushed(c, r, b, pos); Ring(c'.next, c'.prev, [pos] + r)
  {
    var c' := Pushed(c, r, b, pos);
    if r == [] {
      assert [pos] + r == [pos];
    } else {
      RingAppend(c.next, c.prev, r, pos);
      hide Ring;
      RingRotate(c'.next, c'.prev, r + [pos], |r|);
      assert Rotated(r + [pos], |r|) == [pos] + r;
    }
  }

  lemma PushedParts(c: Buckets, r: seq<nat>, b: nat, pos: nat)
    requires Pushable(c, r, b, pos)
    ensures
      var c' := Pushed(c, r, b, pos);
      Sized(c') && |c'.next| == |c.next| && c'.pos == c.pos[pos := b] && c'.start == c.start[b := pos]
  {
  }

  lemma ChainMembers(c: Buckets, order: seq<nat>, r: seq<nat>, b: nat, pos: nat)
    requires Sized(c) && b < |c.start| && Chain(c, order, r, b) && pos !in order
    ensures Ring(c.next, c.prev, r) && pos !in r
    ensures forall i :: 0 <= i < |r| ==> r[i] < |c.next| && r[i] != pos && r[i] in order && c.pos[r[i]] == b
  {
  }

  lemma PushOwn(c: Buckets, order: seq<nat>, r: seq<nat>, b: nat, pos: nat)
    requires Pushable(c, r, b, pos) && Chain(c, order, r, b) && pos !in order
    ensures Chain(Pushed(c, r, b, pos), order + [pos], [pos] + r, b)
  {
    var c', r' := Pushed(c, r, b, pos), [pos] + r;
    ChainMembers(c, order, r, b, pos);
    ChainPushable(c, order, r, b, pos);
    PushedParts(c, r, b, pos);
    PushRing(c, r, b, pos);
    hide Ring, Pushed;
    forall i | 0 <= i < |r'| ensures r'[i] in order + [pos] && c'.pos[r'[i]] == b {
      assert i > 0 ==> r'[i] == r[i - 1];
    }
  }

  /** Linking touches only the slot itself and the ends of its own bucket ring. */
  lemma PushedFrame(c: Buckets, r: seq<nat>, b: nat, pos: nat, s: nat)
    requires Pushable(c, r, b, pos) && s < |c.next|
    ensures
      var c' := Pushed(c, r, b, pos);
      Sized(c') && |c'.next| == |c.next| &&
      (s != pos && (r != [] ==> s != r[0] && s != c.prev[r[0]]) ==>
        c'.next[s] == c.next[s] && c'.prev[s] == c.prev[s] && c'.pos[s] == c.pos[s])
  {
  }

  lemma PushOther(c: Buckets, order: seq<nat>, r: seq<nat>, b: nat, pos: nat, r': seq<nat>, b': nat)
    requires Pushable(c, r, b, pos) && Chain(c, order, r, b) && pos !in order
    requires b' < |c.start| && b' != b && Chain(c, order, r', b')
    ensures Chain(Pushed(c, r, b, pos), order + [pos], r', b')
  {
    var c' := Pushed(c, r, b, pos);
    ChainPushable(c, order, r, b, pos);
    ChainMembers(c, order, r', b', pos);
    PushedParts(c, r, b, pos);
    hide Ring, Pushed, Chain;
    var changed := if r == [] then {pos} else {pos, r[0], c.prev[r[0]]};
    forall i | 0 <= i < |r'| ensures r'[i] !in changed && r'[i] in order + [pos] {
    }
    forall s | 0 <= s < |c.next| && s !in changed
      ensures c'.next[s] == c.next[s] && c'.prev[s] == c.prev[s] && c'.pos[s] == c.pos[s]
    {
      PushedFrame(c, r, b, pos, s);
    }
    OtherChain(c, order, c', order + [pos], r', b', changed);
  }

  /** Linking a free slot makes it a live slot and the entry point of its bucket. */
  lemma PushBuckets(c: Buckets, order: seq<nat>, rings: seq<seq<nat>>, b: nat, pos: nat)
    requires Bucketed(c, order, rings) && b < |rings| && Pushable(c, rings[b], b, pos) && pos !in order
    ensures Bucketed(Pushed(c, rings[b], b, pos), order + [pos], rings[b := [pos] + rings[b]])
  {
    var c' := Pushed(c, rings[b], b, pos);
    var order', rings' := order + [pos], rings[b := [pos] + rings[b]];
    assert Chain(c, order, rings[b], b);
    PushedParts(c, rings[b], b, pos);
    hide Chain, Pushed;
    PushOwn(c, order, rings[b], b, pos);
    forall b' | 0 <= b' < |rings'| ensures Chain(c', order', rings'[b'], b') {
      assert Chain(c, order, rings[b'], b');
      if b' != b { PushOther(c, order, rings[b], b, pos, rings[b'], b'); }
    }
    CoveredPushed(c, c', order, rings, b, pos);
  }

  lemma CoveredPushed(c: Buckets, c': Buckets, order: seq<nat>, rings: seq<seq<nat>>, b: nat, pos: nat)
    requires Covered(c, order, rings) && b < |rings| && pos < |c.pos| && c'.pos == c.pos[pos := b]
    ensures Covered(c', order + [pos], rings[b := [pos] + rings[b]])
  {
  }

  // ----- relocating a live slot

  function Moved(c: Buckets, to: nat, from: nat): Buckets
    requires InBucket(c, from) && to < |c.next|
  {
    var next, prev := c.next[c.prev[from] := to], c.prev[c.next[from] := to];
    Buckets(next[to := next[from]], prev[to := prev[from]], c.pos[to := c.pos[from]],
            if c.start[c.pos[from]] == from then c.start[c.pos[from] := to] else c.start)
  }

  function Renamed(r: seq<nat>, j: nat, to: nat): seq<nat>
    requires j < |r|
  {
    r[j := to]
  }

  lemma RenamedMembers(order: seq<nat>, k: nat, to: nat)
    requires Distinct(order) && k < |order| && to !in order
    ensures forall s :: s in Renamed(order, k, to) <==> s == to || (s in order && s != order[k])
  {
    var order' := Renamed(order, k, to);
    assert order'[k] == to;
    assert forall i :: 0 <= i < |order| && i != k ==> order'[i] == order[i];
  }

  lemma MoveOwn(c: Buckets, order: seq<nat>, r: seq<nat>, k: nat, j: nat, to: nat, b: nat)
    requires Distinct(order) && k < |order| && to !in order && j < |r| && r[j] == order[k]
    requires InBucket(c, order[k]) && to < |c.next| && b == c.pos[order[k]] && Chain(c, order, r, b)
    ensures Chain(Moved(c, to, order[k]), Renamed(order, k, to), Renamed(r, j, to), b)
  {
    var from := order[k];
    var c', r' := Moved(c, to, from), Renamed(r, j, to);
    assert Ring(c'.next, c'.prev, r') by { RingRename(c.next, c.prev, r, j, to); }
    RenamedMembers(order, k, to);
    forall i | 0 <= i < |r'| ensures r'[i] in Renamed(order, k, to) && c'.pos[r'[i]] == b {
      assert i != j ==> r[i] != from && r[i] != to;
    }
    assert c.start[b] == from <==> j == 0;
  }

  lemma MoveOther(c: Buckets, order: seq<nat>, r: seq<nat>, k: nat, to: nat, b: nat)
    requires Distinct(order) && k < |order| && to !in order
    requires InBucket(c, order[k]) && to < |c.next|
    requires c.pos[c.prev[order[k]]] == c.pos[order[k]] == c.pos[c.next[order[k]]]
    requires b < |c.start| && b != c.pos[order[k]] && Chain(c, order, r, b)
    ensures Chain(Moved(c, to, order[k]), Renamed(order, k, to), r, b)
  {
    var from := order[k];
    var changed := {c.prev[from], c.next[from], to};
    RenamedMembers(order, k, to);
    forall i | 0 <= i < |r| ensures r[i] !in changed && r[i] in Renamed(order, k, to) {
      assert c.pos[r[i]] == b && r[i] in order;
    }
    OtherChain(c, order, Moved(c, to, from), Renamed(order, k, to), r, b, changed);
  }

  lemma CoveredMoved(c: Buckets, c': Buckets, order: seq<nat>, rings: seq<seq<nat>>, k: nat, b: nat, j: nat, to: nat)
    requires Covered(c, order, rings) && Distinct(order) && k < |order| && to !in order
    requires to < |c.pos| && b < |rings| && c'.pos == c.pos[to := b]
    requires j < |rings[b]| && rings[b][j] == order[k] && Distinct(rings[b]) && to !in rings[b]
    ensures Covered(c', Renamed(order, k, to), rings[b := Renamed(rings[b], j, to)])
  {
    RenamedMembers(order, k, to);
    RenamedMembers(rings[b], j, to);
  }

  /** Relocating a live slot replaces it in its bucket. */
  lemma MoveBuckets(c: Buckets, order: seq<nat>, rings: seq<seq<nat>>, k: nat, b: nat, j: nat, to: nat)
    requires Bucketed(c, order, rings) && Distinct(order) && k < |order| && to !in order
    requires InBucket(c, order[k]) && to < |c.next|
    requires b == c.pos[order[k]] && j < |rings[b]| && rings[b][j] == order[k]
    ensures Bucketed(Moved(c, to, order[k]), Renamed(order, k, to), rings[b := Renamed(rings[b], j, to)])
  {
    var from := order[k];
    var c' := Moved(c, to, from);
    var order', rings' := Renamed(order, k, to), rings[b := Renamed(rings[b], j, to)];
    assert Chain(c, order, rings[b], b);
    NeighboursInBucket(c, order, rings[b], b, from);
    MoveOwn(c, order, rings[b], k, j, to, b);
    CoveredMoved(c, c', order, rings, k, b, j, to);
    forall b' | 0 <= b' < |rings'| ensures Chain(c', order', rings'[b'], b') {
      assert Chain(c, order, rings[b'], b');
      if b' != b { MoveOther(c, order, rings[b'], k, to, b'); }
    }
  }
}
