/** Doubly linked rings threaded through an array of slots.

    `next` and `prev` are the two link columns of the array; a ring is the
    sequence of slots met when following `next` from its first slot.  Both
    intrusive lists of the LRU (recency and collision bucket) are such rings. */
module Rings {
  import opened Common

  function Succ(r: seq<nat>, i: nat): nat
    requires i < |r|
  {
    if i + 1 < |r| then r[i + 1] else r[0]
  }

  ghost predicate Distinct(r: seq<nat>) {
    forall i, j :: 0 <= i < j < |r| ==> r[i] != r[j]
  }

  ghost predicate Ring(next: seq<nat>, prev: seq<nat>, r: seq<nat>) {
    && |next| == |prev|
    && Distinct(r)
    && (forall i :: 0 <= i < |r| ==> r[i] < |next|)
    && (forall i :: 0 <= i < |r| ==> next[r[i]] == Succ(r, i))
    && (forall i :: 0 <= i < |r| ==> prev[Succ(r, i)] == r[i])
  }

  /** Slot i of the ring and its successor point at each other. */
  ghost predicate Linked(next: seq<nat>, prev: seq<nat>, r: seq<nat>, i: nat)
    requires i < |r|
  {
    && r[i] < |next| && Succ(r, i) < |prev|
    && next[r[i]] == Succ(r, i) && prev[Succ(r, i)] == r[i]
  }

  lemma RingAt(next: seq<nat>, prev: seq<nat>, r: seq<nat>, i: nat)
    requires Ring(next, prev, r) && i < |r|
    ensures Linked(next, prev, r, i) && |next| == |prev|
  {
    assert prev[Succ(r, i)] == r[i];
  }

  lemma MakeRing(next: seq<nat>, prev: seq<nat>, r: seq<nat>)
    requires |next| == |prev| && Distinct(r) && forall i :: 0 <= i < |r| ==> Linked(next, prev, r, i)
    ensures Ring(next, prev, r)
  {
    forall i | 0 <= i < |r|
      ensures r[i] < |next| && Succ(r, i) < |prev| && next[r[i]] == Succ(r, i) && prev[Succ(r, i)] == r[i]
    {
      assert Linked(next, prev, r, i);
    }
  }

  lemma RingParts(next: seq<nat>, prev: seq<nat>, r: seq<nat>)
    requires Ring(next, prev, r)
    ensures |next| == |prev| && Distinct(r)
  {
  }

  /** The slot before slot i. */
  function Before(r: seq<nat>, i: nat): (p: nat)
    requires i < |r|
    ensures p < |r| && Succ(r, p) == r[i]
  {
    if i == 0 then |r| - 1 else i - 1
  }

  lemma WithoutDistinct(r: seq<nat>, k: nat)
    requires Distinct(r) && k < |r|
    ensures Distinct(Without(r, k)) && r[k] !in Without(r, k)
    ensures forall x :: x in r <==> x == r[k] || x in Without(r, k)
  {
    var s := Without(r, k);
    assert forall i :: 0 <= i < |s| ==> s[i] == r[if i < k then i else i + 1];
    assert forall i :: 0 <= i < |r| && i != k ==> r[i] == s[if i < k then i else i - 1];
  }

  /** Unlinking the last slot of a ring. */
  lemma RingRemoveLast(next: seq<nat>, prev: seq<nat>, r: seq<nat>)
    requires Ring(next, prev, r) && |r| > 0
    ensures
      var l := r[|r| - 1];
      && prev[l] < |next| && next[l] < |next|
      && Ring(next[prev[l] := next[l]], prev[next[l] := prev[l]], r[..|r| - 1])
  {
    var n := |r| - 1;
    var l := r[n];
    assert next[l] == Succ(r, n) == r[0];
    if n > 0 {
      assert prev[Succ(r, n - 1)] == r[n - 1];
      var s := r[..n];
      var next', prev' := next[prev[l] := next[l]], prev[next[l] := prev[l]];
      forall i | 0 <= i < |s|
        ensures next'[s[i]] == Succ(s, i) && prev'[Succ(s, i)] == s[i]
      {
        assert next[r[i]] == Succ(r, i) && prev[Succ(r, i)] == r[i];
      }
    } else {
      assert prev[Succ(r, 0)] == r[0];
    }
  }

  /** Unlinking a slot leaves the ring of the others. */
  lemma RingRemove(next: seq<nat>, prev: seq<nat>, r: seq<nat>, k: nat)
    requires Ring(next, prev, r) && k < |r|
    ensures prev[r[k]] < |next| && next[r[k]] < |next|
    ensures Ring(next[prev[r[k]] := next[r[k]]], prev[next[r[k]] := prev[r[k]]], Without(r, k))
    ensures Ring(next[prev[r[k]] := next[r[k]]], prev[next[r[k]] := prev[r[k]]], r[k + 1..] + r[..k])
  {
    var t := r[k + 1..] + r[..k + 1];
    RingRotate(next, prev, r, k + 1);
    RingRemoveLast(next, prev, t);
    assert t == Rotated(r, k + 1) && t[|t| - 1] == r[k];
    var u := r[k + 1..] + r[..k];
    assert t[..|t| - 1] == u;
    var m := |r| - k - 1;
    RingRotate(next[prev[r[k]] := next[r[k]]], prev[next[r[k]] := prev[r[k]]], u, m);
    assert Rotated(u, m) == Without(r, k);
  }

  /** Linking a new slot between the last and the first one appends it. */
  lemma RingAppend(next: seq<nat>, prev: seq<nat>, r: seq<nat>, p: nat)
    requires Ring(next, prev, r) && |r| > 0 && p < |next| && p !in r
    ensures Ring(next[p := r[0]][r[|r| - 1] := p], prev[p := r[|r| - 1]][r[0] := p], r + [p])
  {
    var s := r + [p];
    var next', prev' := next[p := r[0]][r[|r| - 1] := p], prev[p := r[|r| - 1]][r[0] := p];
    forall i | 0 <= i < |s|
      ensures next'[s[i]] == Succ(s, i) && prev'[Succ(s, i)] == s[i]
    {
      if i + 1 < |r| {
        assert s[i] == r[i] && Succ(s, i) == r[i + 1] == Succ(r, i);
      }
    }
  }

  /** Unlinking a slot other than the last and appending it again moves it to the end. */
  lemma RingTouch(next: seq<nat>, prev: seq<nat>, r: seq<nat>, k: nat)
    requires Ring(next, prev, r) && k < |r| - 1
    ensures
      var head, pos := r[|r| - 1], r[k];
      && prev[pos] < |next| && next[pos] < |next|
      && var next1, prev1 := next[prev[pos] := next[pos]], prev[next[pos] := prev[pos]];
      && next1[head] < |next| && pos != head
      && Ring(next1[pos := next1[head]][head := pos], prev1[pos := head][next1[head] := pos], Without(r, k) + [pos])
  {
    var head, pos := r[|r| - 1], r[k];
    RingRemove(next, prev, r, k);
    WithoutDistinct(r, k);
    var next1, prev1 := next[prev[pos] := next[pos]], prev[next[pos] := prev[pos]];
    var s := Without(r, k);
    assert s[|s| - 1] == head;
    assert next1[head] == Succ(s, |s| - 1) == s[0];
    RingAppend(next1, prev1, s, pos);
  }

  function Rotated(r: seq<nat>, k: nat): (s: seq<nat>)
    requires k <= |r|
    ensures |s| == |r|
    ensures forall i :: 0 <= i < |r| ==> s[i] == r[if i < |r| - k then i + k else i + k - |r|]
  {
    r[k..] + r[..k]
  }

  lemma RotatedDistinct(r: seq<nat>, k: nat)
    requires Distinct(r) && k <= |r|
    ensures Distinct(Rotated(r, k))
  {
    var s := Rotated(r, k);
    forall i, j | 0 <= i < j < |s| ensures s[i] != s[j] {
      var i' := if i < |r| - k then i + k else i + k - |r|;
      var j' := if j < |r| - k then j + k else j + k - |r|;
      assert s[i] == r[i'] && s[j] == r[j'] && i' != j';
    }
  }

  lemma RotatedAt(r: seq<nat>, k: nat, i: nat)
    requires k <= |r| && i < |r|
    ensures
      var j := if i < |r| - k then i + k else i + k - |r|;
      Rotated(r, k)[i] == r[j] && Succ(Rotated(r, k), i) == Succ(r, j)
  {
  }

  lemma RingRotate(next: seq<nat>, prev: seq<nat>, r: seq<nat>, k: nat)
    requires Ring(next, prev, r) && k <= |r|
    ensures Ring(next, prev, Rotated(r, k))
  {
    var s := Rotated(r, k);
    RingParts(next, prev, r);
    RotatedDistinct(r, k);
    hide Ring, Succ, Rotated, Distinct;
    forall i | 0 <= i < |s| ensures Linked(next, prev, s, i) {
      RotatedAt(r, k, i);
      RingAt(next, prev, r, if i < |r| - k then i + k else i + k - |r|);
    }
    MakeRing(next, prev, s);
  }

  lemma RenamedAt(r: seq<nat>, k: nat, to: nat, i: nat)
    requires k < |r| && i < |r|
    ensures
      var s := r[k := to];
      && s[i] == (if i == k then to else r[i])
      && Succ(s, i) == (if i == Before(r, k) then to else Succ(r, i))
  {
  }

  lemma SuccDistinct(r: seq<nat>, i: nat, k: nat)
    requires Distinct(r) && i < |r| && k < |r|
    ensures r[i] == r[k] <==> i == k
    ensures Succ(r, i) == Succ(r, k) <==> i == k
    ensures Succ(r, i) == r[k] <==> i == Before(r, k)
  {
  }

  /** One link column after a neighbour was redirected to the free slot and the link of k copied. */
  function Redirect(col: seq<nat>, at: nat, k: nat, to: nat): (r: seq<nat>)
    requires at < |col| && k < |col| && to < |col|
    ensures |r| == |col|
  {
    col[at := to][to := col[at := to][k]]
  }

  lemma RedirectAt(col: seq<nat>, at: nat, k: nat, to: nat, x: nat)
    requires at < |col| && k < |col| && to < |col| && x < |col| && at != to && k != to
    ensures Redirect(col, at, k, to)[x] ==
      if x == to then (if k == at then to else col[k]) else if x == at then to else col[x]
  {
  }

  lemma RenameNext(next: seq<nat>, prev: seq<nat>, r: seq<nat>, k: nat, to: nat, i: nat)
    requires Ring(next, prev, r) && k < |r| && i < |r| && to < |next| && to !in r
    ensures r[k] < |next| && r[Before(r, k)] < |next|
    ensures r[k := to][i] < |next|
    ensures Redirect(next, r[Before(r, k)], r[k], to)[r[k := to][i]] == Succ(r[k := to], i)
  {
    RingParts(next, prev, r);
    assert r[i] in r && r[k] in r && r[Before(r, k)] in r;
    hide Ring, Succ, Distinct, Before, Redirect;
    var p := Before(r, k);
    RingAt(next, prev, r, i);
    RingAt(next, prev, r, k);
    RingAt(next, prev, r, p);
    RenamedAt(r, k, to, i);
    SuccDistinct(r, i, p);
    SuccDistinct(r, k, p);
    RedirectAt(next, r[p], r[k], to, r[k := to][i]);
  }

  lemma RenamePrev(next: seq<nat>, prev: seq<nat>, r: seq<nat>, k: nat, to: nat, i: nat)
    requires Ring(next, prev, r) && k < |r| && i < |r| && to < |next| && to !in r
    ensures r[k] < |prev| && Succ(r, k) < |prev| && to < |prev| && Succ(r[k := to], i) < |prev|
    ensures Redirect(prev, Succ(r, k), r[k], to)[Succ(r[k := to], i)] == r[k := to][i]
  {
    RingParts(next, prev, r);
    assert r[k] in r;
    SuccMember(r, i);
    SuccMember(r, k);
    hide Ring, Succ, Distinct, Before, Redirect;
    var p := Before(r, k);
    RingAt(next, prev, r, i);
    RingAt(next, prev, r, k);
    RingAt(next, prev, r, p);
    RenamedAt(r, k, to, i);
    SuccDistinct(r, i, k);
    SuccDistinct(r, k, k);
    RedirectAt(prev, Succ(r, k), r[k], to, Succ(r[k := to], i));
  }

  lemma SuccMember(r: seq<nat>, i: nat)
    requires i < |r|
    ensures Succ(r, i) in r
  {
  }

  /** Redirecting the neighbours of a slot to a free one puts it in its place. */
  lemma RingRename(next: seq<nat>, prev: seq<nat>, r: seq<nat>, k: nat, to: nat)
    requires Ring(next, prev, r) && k < |r| && to < |next| && to !in r
    ensures prev[r[k]] < |next| && next[r[k]] < |next|
    ensures
      var next1, prev1 := next[prev[r[k]] := to], prev[next[r[k]] := to];
      Ring(next1[to := next1[r[k]]], prev1[to := prev1[r[k]]], r[k := to])
  {
    var s, p := r[k := to], Before(r, k);
    RingParts(next, prev, r);
    assert Distinct(s);
    hide Ring, Succ, Distinct, Before;
    RingAt(next, prev, r, k);
    RingAt(next, prev, r, p);
    var next', prev' := Redirect(next, r[p], r[k], to), Redirect(prev, Succ(r, k), r[k], to);
    forall i | 0 <= i < |s| ensures Linked(next', prev', s, i) {
      RenameNext(next, prev, r, k, to, i);
      RenamePrev(next, prev, r, k, to, i);
    }
    MakeRing(next', prev', s);
  }

  /** Links of other slots do not matter. */
  lemma RingFrame(next: seq<nat>, prev: seq<nat>, next': seq<nat>, prev': seq<nat>, r: seq<nat>)
    requires Ring(next, prev, r)
    requires |next'| == |prev'| == |next|
    requires forall i :: 0 <= i < |r| ==> next'[r[i]] == next[r[i]] && prev'[r[i]] == prev[r[i]]
    ensures Ring(next', prev', r)
  {
    forall i | 0 <= i < |r|
      ensures prev'[Succ(r, i)] == r[i]
    {
      var j := if i + 1 < |r| then i + 1 else 0;
      assert Succ(r, i) == r[j];
    }
  }

  lemma {:induction false} Pigeonhole(r: seq<nat>, n: nat)
    requires Distinct(r)
    requires forall i :: 0 <= i < |r| ==> r[i] < n
    ensures |r| <= n
  {
    if |r| == 0 {
      return;
    }
    assert r[0] < n;
    if n - 1 in r {
      var k :| 0 <= k < |r| && r[k] == n - 1;
      WithoutDistinct(r, k);
      forall i | 0 <= i < |r| - 1 ensures Without(r, k)[i] < n - 1 {
        assert Without(r, k)[i] in Without(r, k);
      }
      Pigeonhole(Without(r, k), n - 1);
    } else {
      Pigeonhole(r, n - 1);
    }
  }

  /** n distinct slots below n are all the slots below n. */
  lemma AllSlots(r: seq<nat>, n: nat, s: nat)
    requires Distinct(r) && |r| == n && s < n
    requires forall i :: 0 <= i < |r| ==> r[i] < n
    ensures s in r
  {
    if s !in r {
      Pigeonhole(r + [s], n);
    }
  }
}
