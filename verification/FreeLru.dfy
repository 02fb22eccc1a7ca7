/** The array-backed LRU cache of package freelru.

    Slots 0..len-1 are live.  Two intrusive rings run through them: the recency
    ring, ending at `head`, and one collision ring per bucket.  The class is
    proved against module RecencyList. */
module FreeLru {
  import opened Bits
  import opened Common
  import opened LruSlots
  import opened LruView
  import opened Rings
  import RL = RecencyList

  class LRU<K(==), V> {
    const buckets: array<nat>
    const elements: array<Element<K, V>>
    const hash: K -> uint32
    const cap: nat
    const size: nat
    const mask: nat
    const emptyKey: K
    const emptyValue: V
    var head: nat
    var len: nat
    ghost var order: seq<nat>
    ghost var rings: seq<seq<nat>>

    predicate Shape() {
      && 0 < cap <= size < EMPTY_BUCKET
      && buckets.Length == elements.Length == size
      && mask == MaskOf(size)
    }

    ghost function State(): View<K, V>
      reads this, elements, buckets
    {
      View(elements[..], buckets[..], head, order, rings)
    }

    ghost predicate Valid()
      reads this, elements, buckets
    {
      && Shape()
      && |order| == len <= cap && InRange(order, len)
      && Wf(State())
      && Placed(State(), hash, mask)
    }

    ghost function Contents(): seq<RL.Entry<K, V>>
      requires Valid()
      reads this, elements, buckets
    {
      ListOf(State())
    }

    constructor (capacity: nat, size: nat, hash: K -> uint32, emptyKey: K, emptyValue: V)
      requires 0 < capacity <= size < EMPTY_BUCKET
      ensures Valid() && Contents() == []
      ensures cap == capacity && this.size == size && this.hash == hash
      ensures fresh(buckets) && fresh(elements)
    {
      cap, this.size, this.hash := capacity, size, hash;
      this.emptyKey, this.emptyValue := emptyKey, emptyValue;
      mask := if OnesCount(size) == 1 then size - 1 else 0;
      buckets := new nat[size](i => EMPTY_BUCKET);
      elements := new Element<K, V>[size](i => Element(emptyKey, emptyValue, 0, 0, 0, 0, 0, 0));
      head, len := 0, 0;
      order, rings := [], seq(size, i => []);
    }

    // ----- recency ring

    method SetHead(pos: nat)
      requires pos < elements.Length && head < elements.Length && pos != head
      requires elements[head].next < elements.Length
      modifies this`head, elements
      ensures head == pos
      ensures SameButTime(old(elements[..]), elements[..])
      ensures Nexts(elements[..]) == old(Nexts(elements[..])[pos := elements[head].next][head := pos])
      ensures Prevs(elements[..]) == old(Prevs(elements[..])[pos := head][elements[head].next := pos])
    {
      elements[pos] := elements[pos].(prev := head);
      elements[pos] := elements[pos].(next := elements[head].next);
      elements[elements[head].next] := elements[elements[head].next].(prev := pos);
      elements[head] := elements[head].(next := pos);
      head := pos;
    }

    method UnlinkElement(pos: nat)
      requires pos < elements.Length
      requires elements[pos].prev < elements.Length && elements[pos].next < elements.Length
      requires elements[pos].prev == pos ==> elements[pos].next == pos
      modifies elements
      ensures SameButTime(old(elements[..]), elements[..])
      ensures Nexts(elements[..]) == old(Nexts(elements[..])[elements[pos].prev := elements[pos].next])
      ensures Prevs(elements[..]) == old(Prevs(elements[..])[elements[pos].next := elements[pos].prev])
    {
      elements[elements[pos].prev] := elements[elements[pos].prev].(next := elements[pos].next);
      elements[elements[pos].next] := elements[elements[pos].next].(prev := elements[pos].prev);
    }

    // ----- bucket rings

    method UnlinkBucket(pos: nat)
      requires buckets.Length == elements.Length
      requires InBucket(Columns(elements[..], buckets[..]), pos)
      modifies elements, buckets
      ensures SameButBucket(old(elements[..]), elements[..])
      ensures Columns(elements[..], buckets[..]) == old(Unlinked(Columns(elements[..], buckets[..]), pos))
    {
      var prevBucket := elements[pos].prevBucket;
      var nextBucket := elements[pos].nextBucket;
      if prevBucket == nextBucket && prevBucket == pos {
        buckets[elements[pos].bucketPos] := EMPTY_BUCKET;
        return;
      }
      elements[prevBucket] := elements[prevBucket].(nextBucket := nextBucket);
      elements[nextBucket] := elements[nextBucket].(prevBucket := prevBucket);
      buckets[elements[pos].bucketPos] := nextBucket;
    }

    /** Takes the slot pos out of both lists. */
    method Evict(pos: nat)
      requires buckets.Length == elements.Length && len > 0
      requires Evictable(elements[..], buckets[..], pos)
      modifies this`head, this`len, elements, buckets
      ensures len == old(len) - 1
      ensures Evicted(old(elements[..]), old(buckets[..]), old(head), pos, elements[..], buckets[..], head)
    {
      ghost var es, bs := elements[..], buckets[..];
      if pos == head {
        head := elements[pos].prev;
      }
      UnlinkElement(pos);
      assert Columns(elements[..], bs) == Columns(es, bs);
      ghost var es1 := elements[..];
      UnlinkBucket(pos);
      assert Nexts(elements[..]) == Nexts(es1) && Prevs(elements[..]) == Prevs(es1);
      len := len - 1;
    }

    /** Redirects the recency neighbours of `from`. */
    method RedirectTime(to: nat, from: nat)
      requires from < elements.Length && elements[from].prev < elements.Length && elements[from].next < elements.Length
      requires elements[from].prev == from ==> elements[from].next == from
      modifies elements
      ensures SameButTime(old(elements[..]), elements[..])
      ensures Nexts(elements[..]) == old(Nexts(elements[..])[elements[from].prev := to])
      ensures Prevs(elements[..]) == old(Prevs(elements[..])[elements[from].next := to])
    {
      var prev, next := elements[from].prev, elements[from].next;
      elements[prev] := elements[prev].(next := to);
      elements[next] := elements[next].(prev := to);
    }

    /** Redirects the bucket neighbours of `from`. */
    method RedirectBucket(to: nat, from: nat)
      requires from < elements.Length
      requires elements[from].prevBucket < elements.Length && elements[from].nextBucket < elements.Length
      modifies elements
      ensures SameButBucket(old(elements[..]), elements[..])
      ensures Positions(elements[..]) == old(Positions(elements[..]))
      ensures NextBuckets(elements[..]) == old(NextBuckets(elements[..])[elements[from].prevBucket := to])
      ensures PrevBuckets(elements[..]) == old(PrevBuckets(elements[..])[elements[from].nextBucket := to])
    {
      var prev, next := elements[from].prevBucket, elements[from].nextBucket;
      elements[prev] := elements[prev].(nextBucket := to);
      elements[next] := elements[next].(prevBucket := to);
    }

    /** Relocates the slot `from`, so that no gap remains. */
    method Move(to: nat, from: nat)
      requires buckets.Length == elements.Length && to < elements.Length
      requires to != from ==> Evictable(elements[..], buckets[..], from)
      modifies this`head, elements, buckets
      ensures Filled(old(elements[..]), old(buckets[..]), old(head), to, from, elements[..], buckets[..], head)
    {
      hide Relocated;
      if to == from {
        return;
      }
      if from == head {
        head := to;
      }
      ghost var es, bs := elements[..], buckets[..];
      RedirectTime(to, from);
      ghost var es1 := elements[..];
      RedirectBucket(to, from);
      ghost var es2 := elements[..];
      elements[to] := elements[from];
      if buckets[elements[to].bucketPos] == from {
        buckets[elements[to].bucketPos] := to;
      }
      assert elements[..] == es2[to := es2[from]];
      RelocateColumns(es, bs, es1, es2, to, from, elements[..], buckets[..]);
      MakeRelocated(es, bs, old(head), es1, es2, to, from, elements[..], buckets[..], head);
    }

    method ClearKeyAndValue(pos: nat)
      requires pos < elements.Length
      modifies elements
      ensures elements[..] == old(elements[..][pos := elements[pos].(key := emptyKey, value := emptyValue)])
    {
      elements[pos] := elements[pos].(key := emptyKey);
      elements[pos] := elements[pos].(value := emptyValue);
    }

    /** Evicts the live slot order[k]; v1 is the state without it. */
    method EvictLive(pos: nat, ghost k: nat) returns (ghost v1: View<K, V>)
      requires Valid() && k < |order| && order[k] == pos
      modifies this`head, this`len, elements, buckets
      ensures len == old(len) - 1
      ensures v1.es == elements[..] && v1.bs == buckets[..] && v1.head == head
      ensures Without1(old(State()), k, v1) && Placed(v1, hash, mask)
    {
      hide Wf, Placed, Evicted, Evictable, Without1;
      ghost var v := State();
      LiveEvictable(v, k);
      Evict(pos);
      v1 := EvictWf(v, k, elements[..], buckets[..], head);
      EvictPlaced(v, hash, mask, k, v1);
    }

    /** Fills the gap at pos with the last slot. */
    method FillGap(pos: nat, ghost v: View<K, V>)
      requires Shape() && v.es == elements[..] && v.bs == buckets[..] && v.head == head
      requires len < elements.Length && len <= cap && Wf(v) && Placed(v, hash, mask) && Gap(v, pos, len)
      modifies this, elements, buckets
      ensures len == old(len) && Valid() && Contents() == ListOf(v)
    {
      hide Wf, Placed, Evictable, Gap, Filled;
      GapEvictable(v, pos, len);
      Move(pos, len);
      ghost var es := elements[..];
      ClearKeyAndValue(len);
      ghost var v' := AfterMove(v, hash, mask, pos, len, es, buckets[..], head, elements[..], emptyKey, emptyValue);
      order, rings := v'.order, v'.rings;
      assert State() == v';
    }

    /** Removes the live slot order[k]. */
    method RemoveAt(pos: nat, ghost k: nat)
      requires Valid() && k < |order| && order[k] == pos
      modifies this, elements, buckets
      ensures Valid() && Contents() == Without(old(Contents()), k)
    {
      hide Wf, Placed, Gap, Without1;
      ghost var v := State();
      ghost var v1 := EvictLive(pos, k);
      GapAfterEvict(v, k, v1, len);
      FillGap(pos, v1);
    }

    /** Moves the live slot order[k], not the head, to the recent end. */
    method MoveToHead(pos: nat, ghost k: nat)
      requires Valid() && k < |order| - 1 && order[k] == pos && pos != head
      modifies this, elements
      ensures Valid() && len == old(len) && order == Without(old(order), k) + [pos]
      ensures Contents() == Without(old(Contents()), k) + [old(Contents())[k]]
    {
      hide Wf, Placed;
      ghost var v := State();
      TouchReady(v, k);
      UnlinkElement(pos);
      ghost var es1 := elements[..];
      SetHead(pos);
      ghost var v' := TouchWf(v, hash, mask, k, es1, elements[..]);
      order, rings := v'.order, v'.rings;
      assert State() == v';
    }

    /** Makes the live slot order[k] the most recently used one. */
    method Touch(pos: nat, ghost k: nat)
      requires Valid() && k < |order| && order[k] == pos
      modifies this, elements
      ensures Valid() && len == old(len) && order == Without(old(order), k) + [pos]
      ensures Contents() == Without(old(Contents()), k) + [old(Contents())[k]]
    {
      hide Wf, Placed;
      TouchReady(State(), k);
      if pos != head {
        MoveToHead(pos, k);
      }
    }

    /** Replaces value and expiry of the live slot order[k]. */
    method Overwrite(pos: nat, value: V, expire: int, ghost k: nat)
      requires Valid() && k < |order| && order[k] == pos
      modifies elements
      ensures Valid() && order == old(order)
      ensures Contents() == old(Contents()[k := RL.Entry(Contents()[k].key, value, expire)])
    {
      hide Wf, Placed;
      ghost var v := State();
      LiveEvictable(v, k);
      elements[pos] := elements[pos].(value := value);
      elements[pos] := elements[pos].(expire := expire);
      OverwriteWf(v, hash, mask, k, elements[..], value, expire);
      assert State() == v.(es := elements[..]);
    }

    /** A slot for a new entry: the next free one, or that of the evicted oldest entry. */
    method FreeSlot() returns (pos: nat, evicted: bool, ghost v: View<K, V>)
      requires Valid()
      modifies this`head, this`len, elements, buckets
      ensures evicted == (old(len) == cap) && len < cap
      ensures v.es == elements[..] && v.bs == buckets[..] && v.head == head
      ensures Ready(v, pos, len) && Placed(v, hash, mask)
      ensures RoomMade(old(State()), v, pos, evicted)
    {
      hide Wf, Placed, Without1, Ready, RoomMade;
      v := State();
      pos, evicted := len, false;
      if pos == cap {
        LiveEvictable(v, len - 1);
        TouchReady(v, len - 1);
        pos := elements[head].next;
        ghost var v1 := EvictLive(pos, 0);
        ReadyByEviction(v, v1, pos);
        RoomByEviction(v, v1, pos);
        v := v1;
        evicted := true;
      } else {
        RoomAtEnd(v, pos);
      }
    }

    /** Files pos as the only slot of an empty bucket. */
    method PushFirst(pos: nat, bucketPos: nat)
      requires buckets.Length == elements.Length && pos < elements.Length && bucketPos < elements.Length
      modifies elements, buckets
      ensures SameButBucket(old(elements[..]), elements[..])
      ensures Columns(elements[..], buckets[..]) == Pushed(old(Columns(elements[..], buckets[..])), [], bucketPos, pos)
    {
      buckets[bucketPos] := pos;
      elements[pos] := elements[pos].(bucketPos := bucketPos);
      elements[pos] := elements[pos].(nextBucket := pos);
      elements[pos] := elements[pos].(prevBucket := pos);
    }

    /** Files pos in front of startPos, or alone when startPos is pos itself. */
    method PushFront(pos: nat, bucketPos: nat, startPos: nat, ghost r: seq<nat>)
      requires buckets.Length == elements.Length && pos < elements.Length && bucketPos < elements.Length
      requires startPos < elements.Length && elements[startPos].prevBucket < elements.Length
      requires if r == [] then startPos == pos && elements[pos].prevBucket == pos
               else startPos == r[0] && r[0] != pos
      modifies elements, buckets
      ensures SameButBucket(old(elements[..]), elements[..])
      ensures Columns(elements[..], buckets[..]) == Pushed(old(Columns(elements[..], buckets[..])), r, bucketPos, pos)
    {
      ghost var es, bs, last := elements[..], buckets[..], elements[startPos].prevBucket;
      buckets[bucketPos] := pos;
      elements[pos] := elements[pos].(bucketPos := bucketPos);
      elements[pos] := elements[pos].(nextBucket := startPos);
      elements[pos] := elements[pos].(prevBucket := elements[startPos].prevBucket);
      ghost var es1 := elements[..];
      assert es1 == es[pos := es[pos].(bucketPos := bucketPos, nextBucket := startPos, prevBucket := last)];
      elements[elements[startPos].prevBucket] := elements[elements[startPos].prevBucket].(nextBucket := pos);
      ghost var es2 := elements[..];
      assert es2 == es1[last := es1[last].(nextBucket := pos)];
      elements[startPos] := elements[startPos].(prevBucket := pos);
      PushColumns(es, bs, r, bucketPos, pos, startPos, last, es1, es2, elements[..], buckets[..]);
    }

    method Insert(pos: nat, key: K, value: V, lifetime: int, now: int)
      requires pos < elements.Length
      requires len != 0 ==> head < elements.Length && elements[head].next < elements.Length && pos != head
      modifies this`head, this`len, elements
      ensures len == old(len) + 1
      ensures Inserted(old(elements[..]), old(head), old(len) == 0, pos, RL.Entry(key, value, Expire(lifetime, now)),
                       elements[..], head)
    {
      elements[pos] := elements[pos].(key := key);
      elements[pos] := elements[pos].(value := value);
      elements[pos] := elements[pos].(expire := Expire(lifetime, now));
      ghost var es := elements[..];
      if len == 0 {
        elements[pos] := elements[pos].(prev := pos);
        elements[pos] := elements[pos].(next := pos);
        head := pos;
      } else if pos != head {
        SetHead(pos);
      }
      len := len + 1;
    }

    /** Walks the ring of bucket b from its entry point, looking for key. */
    method Walk(startPos: nat, key: K, ghost b: nat) returns (pos: nat, found: bool)
      requires Valid() && b < |rings| && rings[b] != [] && startPos == rings[b][0]
      ensures found ==> pos in rings[b] && pos < elements.Length && elements[pos].key == key
      ensures !found ==> Absent(State(), b, key)
    {
      hide Wf, Placed;
      ghost var v, i := State(), 0;
      pos := startPos;
      while true
        invariant 0 <= i < |rings[b]| && pos == rings[b][i]
        invariant forall j :: 0 <= j < i ==> rings[b][j] < elements.Length && elements[rings[b][j]].key != key
        decreases |rings[b]| - i
      {
        RingStep(v, b, i);
        if elements[pos].key == key {
          return pos, true;
        }
        pos := elements[pos].nextBucket;
        if pos == startPos {
          return pos, false;
        }
        i := i + 1;
      }
    }

    /** The slot of an unexpired key; an expired entry is removed. */
    method FindKey(h: uint32, key: K, now: int) returns (pos: nat, found: bool, ghost k: nat)
      requires Valid() && h == hash(key)
      modifies this, elements, buckets
      ensures Valid()
      ensures found == RL.Lookup(old(Contents()), key, now).Some?
      ensures found ==> Contents() == old(Contents()) && k == RL.Find(Contents(), key) < len && pos == order[k]
      ensures !found ==> Contents() == RL.AfterGet(old(Contents()), key, now)
    {
      hide Wf, Placed, Absent;
      ghost var v := State();
      BucketInRange(h, size);
      var bucketPos := BucketOf(h, mask, size);
      var startPos := buckets[bucketPos];
      StartOf(v, bucketPos);
      k := 0;
      if startPos == EMPTY_BUCKET {
        NotStored(v, hash, mask, key, bucketPos);
        return EMPTY_BUCKET, false, k;
      }
      pos, found := Walk(startPos, key, bucketPos);
      if !found {
        NotStored(v, hash, mask, key, bucketPos);
        return EMPTY_BUCKET, false, k;
      }
      k := Stored(v, key, bucketPos, pos);
      if elements[pos].expire != 0 && elements[pos].expire <= now {
        RemoveAt(pos, k);
        return EMPTY_BUCKET, false, k;
      }
    }

    /** Looks a key up and makes it the most recently used one. */
    method Get(h: uint32, key: K, now: int) returns (r: Option<V>)
      requires Valid() && h == hash(key)
      modifies this, elements, buckets
      ensures Valid()
      ensures Contents() == RL.AfterGet(old(Contents()), key, now)
      ensures r == RL.Lookup(old(Contents()), key, now)
    {
      hide Wf, Placed;
      ghost var l := Contents();
      var pos, found, k := FindKey(h, key, now);
      if !found {
        return None;
      }
      ghost var v := State();
      EntryAt(v, k);
      var value := elements[pos].value;
      Touch(pos, k);
      return Some(value);
    }

    /** Files the free slot pos under bucketPos. */
    method Link(pos: nat, bucketPos: nat, startPos: nat, evicted: bool, ghost v: View<K, V>, ghost v1: View<K, V>)
      requires buckets.Length == elements.Length && bucketPos < elements.Length && startPos <= EMPTY_BUCKET
      requires v1.es == elements[..] && v1.bs == buckets[..] && Ready(v1, pos, len) && RoomMade(v, v1, pos, evicted)
      requires bucketPos < |v.bs| && startPos == v.bs[bucketPos] && elements.Length < EMPTY_BUCKET
      modifies elements, buckets
      ensures Pushed1(v1, pos, bucketPos, elements[..], buckets[..])
    {
      hide Wf, Ready, RoomMade;
      RoomParts(v, v1, pos, evicted, len, bucketPos);
      StartOf(v, bucketPos);
      StartOf(v1, bucketPos);
      if startPos == EMPTY_BUCKET {
        PushFirst(pos, bucketPos);
      } else {
        var start := startPos;
        if evicted {
          start := buckets[bucketPos];
          if start == EMPTY_BUCKET {
            start := pos;
          }
        }
        PushFront(pos, bucketPos, start, v1.rings[bucketPos]);
      }
    }

    /** Stores a new key, evicting the oldest entry when the cache is full. */
    method AddNew(bucketPos: nat, startPos: nat, key: K, value: V, lifetime: int, now: int) returns (evicted: bool)
      requires Valid() && bucketPos == BucketOf(hash(key), mask, size) < size
      requires startPos == buckets[bucketPos] <= EMPTY_BUCKET
      requires RL.Find(Contents(), key) == |Contents()|
      modifies this, elements, buckets
      ensures Valid()
      ensures Contents() == RL.Add(old(Contents()), cap, RL.Entry(key, value, Expire(lifetime, now)))
      ensures evicted == RL.Evicts(old(Contents()), cap, key)
    {
      hide Wf, Placed, Ready, RoomMade, Inserted, Pushed1, Entries, BucketOf, MaskOf, Expire, RL.Add, RL.Evicts, RL.Find;
      ghost var v := State();
      ghost var e := RL.Entry(key, value, Expire(lifetime, now));
      var pos; ghost var v1;
      pos, evicted, v1 := FreeSlot();
      NewEntryList(v, v1, pos, evicted, e, cap);
      Link(pos, bucketPos, startPos, evicted, v, v1);
      ghost var es1, bs1 := elements[..], buckets[..];
      ReadyHead(v1, pos, len, bucketPos, es1, bs1);
      Insert(pos, key, value, lifetime, now);
      ghost var v2 := PushWf(v1, hash, mask, pos, len - 1, bucketPos, es1, bs1, elements[..], head, e);
      order, rings := v2.order, v2.rings;
      assert State() == v2;
    }

    /** Adds or replaces an entry. */
    method AddWithLifetime(h: uint32, key: K, value: V, lifetime: int, now: int) returns (evicted: bool)
      requires Valid() && h == hash(key)
      modifies this, elements, buckets
      ensures Valid()
      ensures Contents() == RL.Add(old(Contents()), cap, RL.Entry(key, value, Expire(lifetime, now)))
      ensures evicted == RL.Evicts(old(Contents()), cap, key)
    {
      hide Wf, Placed, Absent;
      ghost var v := State();
      BucketInRange(h, size);
      var bucketPos := BucketOf(h, mask, size);
      var startPos := buckets[bucketPos];
      StartOf(v, bucketPos);
      if startPos != EMPTY_BUCKET {
        var pos, found := Walk(startPos, key, bucketPos);
        if found {
          ghost var k := Stored(v, key, bucketPos, pos);
          Overwrite(pos, value, Expire(lifetime, now), k);
          Touch(pos, k);
          ReplaceList(ListOf(v), k, RL.Entry(key, value, Expire(lifetime, now)));
          return false;
        }
      }
      NotStored(v, hash, mask, key, bucketPos);
      evicted := AddNew(bucketPos, startPos, key, value, lifetime, now);
    }
  }
}
