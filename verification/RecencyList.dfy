/** The abstract LRU: a list of entries, least recently used first. */
module RecencyList {
  import opened Common

  datatype Entry<K, V> = Entry(key: K, value: V, expire: int)

  /** `expire` 0 means "forever". */
  predicate Live<K, V>(e: Entry<K, V>, now: int) {
    e.expire == 0 || e.expire > now
  }

  ghost predicate DistinctKeys<K, V>(l: seq<Entry<K, V>>) {
    forall i, j :: 0 <= i < j < |l| ==> l[i].key != l[j].key
  }

  /** Position of `key`, or |l| when it is absent. */
  function Find<K(==), V>(l: seq<Entry<K, V>>, key: K): (i: nat)
    ensures i <= |l|
    ensures i < |l| ==> l[i].key == key
    ensures forall j :: 0 <= j < i ==> l[j].key != key
  {
    if l == [] then 0 else if l[0].key == key then 0 else 1 + Find(l[1..], key)
  }

  function Add<K(==), V>(l: seq<Entry<K, V>>, cap: nat, e: Entry<K, V>): seq<Entry<K, V>> {
    var i := Find(l, e.key);
    if i < |l| then Without(l, i) + [e]
    else if |l| == cap && cap > 0 then l[1..] + [e]
    else l + [e]
  }

  predicate Evicts<K(==), V>(l: seq<Entry<K, V>>, cap: nat, key: K) {
    Find(l, key) == |l| == cap
  }

  function AfterGet<K(==), V>(l: seq<Entry<K, V>>, key: K, now: int): seq<Entry<K, V>> {
    var i := Find(l, key);
    if i == |l| then l
    else if Live(l[i], now) then Without(l, i) + [l[i]]
    else Without(l, i)
  }

  function Lookup<K(==), V>(l: seq<Entry<K, V>>, key: K, now: int): Option<V> {
    var i := Find(l, key);
    if i < |l| && Live(l[i], now) then Some(l[i].value) else None
  }

  // ----- whole runs

  datatype Op<K, V> = AddOp(entry: Entry<K, V>) | GetOp(key: K, now: int)

  function Step<K(==), V>(l: seq<Entry<K, V>>, cap: nat, op: Op<K, V>): seq<Entry<K, V>> {
    match op
    case AddOp(e) => Add(l, cap, e)
    case GetOp(k, now) => AfterGet(l, k, now)
  }

  function Run<K(==), V>(l: seq<Entry<K, V>>, cap: nat, ops: seq<Op<K, V>>): seq<Entry<K, V>>
    decreases |ops|
  {
    if ops == [] then l else Run(Step(l, cap, ops[0]), cap, ops[1..])
  }

  lemma FindUnique<K, V>(l: seq<Entry<K, V>>, i: nat)
    requires DistinctKeys(l) && i < |l|
    ensures Find(l, l[i].key) == i
  {
  }

  lemma DropFacts<K, V>(l: seq<Entry<K, V>>, i: nat)
    requires i < |l|
    ensures forall j :: 0 <= j < |l| - 1 ==> Without(l, i)[j] == l[if j < i then j else j + 1]
    ensures DistinctKeys(l) ==> DistinctKeys(Without(l, i))
    ensures DistinctKeys(l) ==> forall e :: e in Without(l, i) ==> e.key != l[i].key
  {
  }

  ghost predicate Inv<K, V>(l: seq<Entry<K, V>>, cap: nat) {
    DistinctKeys(l) && |l| <= cap
  }

  /** Adding keeps every other entry, except the oldest one when the key is new and
      the list is full. */
  lemma AddContents<K, V>(l: seq<Entry<K, V>>, cap: nat, e: Entry<K, V>, x: Entry<K, V>)
    requires Inv(l, cap) && cap > 0
    ensures x in Add(l, cap, e) <==>
      x == e || (x in l && x.key != e.key && !(Evicts(l, cap, e.key) && x == l[0]))
  {
    var i := Find(l, e.key);
    if i < |l| {
      DropFacts(l, i);
      if x in l && x.key != e.key {
        var j :| 0 <= j < |l| && l[j] == x;
        assert Without(l, i)[if j < i then j else j - 1] == x;
        assert x in Without(l, i);
      }
    } else if |l| == cap {
      assert l == [l[0]] + l[1..];
    }
  }

  lemma AddInv<K, V>(l: seq<Entry<K, V>>, cap: nat, e: Entry<K, V>)
    requires Inv(l, cap) && cap > 0
    ensures Inv(Add(l, cap, e), cap)
  {
    var i := Find(l, e.key);
    if i < |l| {
      DropFacts(l, i);
      hide Without;
      SnocDistinct(Without(l, i), e);
    } else if |l| == cap {
      SnocDistinct(l[1..], e);
    } else {
      SnocDistinct(l, e);
    }
  }

  lemma SnocDistinct<K, V>(l: seq<Entry<K, V>>, e: Entry<K, V>)
    requires DistinctKeys(l) && forall f :: f in l ==> f.key != e.key
    ensures DistinctKeys(l + [e])
  {
    forall i, j | 0 <= i < j < |l + [e]| ensures (l + [e])[i].key != (l + [e])[j].key {
      assert l[i] in l;
    }
  }

  lemma StepInv<K, V>(l: seq<Entry<K, V>>, cap: nat, op: Op<K, V>)
    requires Inv(l, cap) && cap > 0
    ensures Inv(Step(l, cap, op), cap)
  {
    match op
    case AddOp(e) =>
      hide Add;
      AddInv(l, cap, e);
    case GetOp(key, now) =>
      var i := Find(l, key);
      if i < |l| {
        DropFacts(l, i);
        hide Without;
        SnocDistinct(Without(l, i), l[i]);
      }
  }

  /** No run stores a key twice or exceeds the capacity. */
  lemma {:induction false} RunInv<K, V>(l: seq<Entry<K, V>>, cap: nat, ops: seq<Op<K, V>>)
    requires Inv(l, cap) && cap > 0
    ensures Inv(Run(l, cap, ops), cap)
    decreases |ops|
  {
    if ops != [] {
      StepInv(l, cap, ops[0]);
      RunInv(Step(l, cap, ops[0]), cap, ops[1..]);
    }
  }

  /** The entry most recently added for `key`. */
  function LastAdded<K(==), V>(ops: seq<Op<K, V>>, key: K): Option<Entry<K, V>>
    decreases |ops|
  {
    if ops == [] then None
    else
      var last := ops[|ops| - 1];
      if last.AddOp? && last.entry.key == key then Some(last.entry)
      else LastAdded(ops[..|ops| - 1], key)
  }

  lemma {:induction false} RunSnoc<K, V>(l: seq<Entry<K, V>>, cap: nat, ops: seq<Op<K, V>>, op: Op<K, V>)
    ensures Run(l, cap, ops + [op]) == Step(Run(l, cap, ops), cap, op)
    decreases |ops|
  {
    if ops == [] {
      assert (ops + [op])[1..] == [];
    } else {
      assert (ops + [op])[1..] == ops[1..] + [op];
      RunSnoc(Step(l, cap, ops[0]), cap, ops[1..], op);
    }
  }

  /** A step stores nothing but the added entry and entries of other keys. */
  lemma StepContents<K, V>(l: seq<Entry<K, V>>, cap: nat, op: Op<K, V>, e: Entry<K, V>)
    requires Inv(l, cap) && cap > 0 && e in Step(l, cap, op)
    ensures if op.AddOp? then e == op.entry || (e in l && e.key != op.entry.key) else e in l
  {
    match op
    case AddOp(f) =>
      AddContents(l, cap, f, e);
    case GetOp(key, now) =>
  }

  /** In every run from the empty cache, whatever is stored for a key is what
      was added for it last; hence a hit returns the last added value. */
  lemma {:induction false} StoredIsLastAdded<K, V>(cap: nat, ops: seq<Op<K, V>>)
    requires cap > 0
    ensures forall e :: e in Run([], cap, ops) ==> LastAdded(ops, e.key) == Some(e)
    decreases |ops|
  {
    if ops != [] {
      var front, op := ops[..|ops| - 1], ops[|ops| - 1];
      assert ops == front + [op];
      assert Inv<K, V>([], cap);
      RunSnoc([], cap, front, op);
      StoredIsLastAdded(cap, front);
      RunInv([], cap, front);
      hide Run, Step, Inv;
      forall e | e in Run([], cap, ops) ensures LastAdded(ops, e.key) == Some(e) {
        StepContents(Run([], cap, front), cap, op, e);
      }
    }
  }

  /** A hit returns the value added last for that key, and it has not expired. */
  lemma HitIsLastAdded<K, V>(cap: nat, ops: seq<Op<K, V>>, key: K, now: int)
    requires cap > 0
    requires Lookup(Run([], cap, ops), key, now).Some?
    ensures LastAdded(ops, key).Some?
    ensures LastAdded(ops, key).value.expire == 0 || now < LastAdded(ops, key).value.expire
    ensures Lookup(Run([], cap, ops), key, now) == Some(LastAdded(ops, key).value.value)
  {
    StoredIsLastAdded(cap, ops);
    var l := Run([], cap, ops);
    assert l[Find(l, key)] in l;
  }

  // ----- retention

  /** The key an operation brings to the front, if any. */
  function Touched<K(==), V>(l: seq<Entry<K, V>>, op: Op<K, V>): set<K> {
    match op
    case AddOp(e) => {e.key}
    case GetOp(k, now) => if Lookup(l, k, now).Some? then {k} else {}
  }

  function TouchedRun<K(==), V>(l: seq<Entry<K, V>>, cap: nat, ops: seq<Op<K, V>>): set<K>
    decreases |ops|
  {
    if ops == [] then {} else Touched(l, ops[0]) + TouchedRun(Step(l, cap, ops[0]), cap, ops[1..])
  }

  /** No operation overwrites `key` or looks it up after its expiry. */
  ghost predicate Keeps<K, V>(ops: seq<Op<K, V>>, e: Entry<K, V>) {
    forall i :: 0 <= i < |ops| ==>
      match ops[i]
      case AddOp(f) => f.key != e.key
      case GetOp(k, now) => k == e.key ==> e.expire == 0 || now < e.expire
  }

  ghost predicate NewerWithin<K, V>(l: seq<Entry<K, V>>, i: nat, touched: set<K>) {
    forall j :: i < j < |l| ==> l[j].key in touched
  }

  lemma {:induction false} KeysFit<K, V>(l: seq<Entry<K, V>>, keys: set<K>)
    requires DistinctKeys(l)
    requires forall j :: 0 <= j < |l| ==> l[j].key in keys
    ensures |l| <= |keys|
  {
    if l != [] {
      KeysFit(l[1..], keys - {l[0].key});
    }
  }

  lemma DropRetains<K, V>(l: seq<Entry<K, V>>, k: nat, i: nat, touched: set<K>)
    requires k < |l| && i < |l| && i != k && NewerWithin(l, i, touched)
    ensures
      var i' := if i < k then i else i - 1;
      Without(l, k)[i'] == l[i] && NewerWithin(Without(l, k), i', touched)
  {
  }

  lemma AppendRetains<K, V>(l: seq<Entry<K, V>>, e: Entry<K, V>, i: nat, touched: set<K>)
    requires i < |l| && NewerWithin(l, i, touched)
    ensures (l + [e])[i] == l[i] && NewerWithin(l + [e], i, touched + {e.key})
  {
  }

  /** A full list whose oldest entry is followed by touched keys only: one more
      new key makes `cap` touched keys. */
  lemma OldestCounted<K, V>(l: seq<Entry<K, V>>, cap: nat, e: Entry<K, V>, touched: set<K>)
    requires Inv(l, cap) && |l| == cap > 0 && NewerWithin(l, 0, touched)
    requires Find(l, e.key) == |l|
    ensures |(touched + {e.key}) - {l[0].key}| >= cap
  {
    KeysFit(l[1..] + [e], (touched + {e.key}) - {l[0].key});
  }

  lemma NotOldest<K, V>(l: seq<Entry<K, V>>, cap: nat, e: Entry<K, V>, i: nat, touched: set<K>)
    requires Inv(l, cap) && |l| == cap && i < |l| && Find(l, e.key) == |l| && NewerWithin(l, i, touched)
    requires |(touched + {e.key}) - {l[i].key}| < cap
    ensures i > 0
  {
    if i == 0 { OldestCounted(l, cap, e, touched); }
  }

  lemma AddRetains<K, V>(l: seq<Entry<K, V>>, cap: nat, e: Entry<K, V>, i: nat, touched: set<K>) returns (i': nat)
    requires cap > 0 && Inv(l, cap) && i < |l| && e.key != l[i].key
    requires NewerWithin(l, i, touched)
    requires |(touched + {e.key}) - {l[i].key}| < cap
    ensures i' < |Add(l, cap, e)| && Add(l, cap, e)[i'] == l[i]
    ensures NewerWithin(Add(l, cap, e), i', touched + {e.key})
  {
    assert l[1..] == Without(l, 0);
    hide NewerWithin, Inv, Find, Without;
    var k := Find(l, e.key);
    if k < |l| {
      DropRetains(l, k, i, touched);
      i' := if i < k then i else i - 1;
      AppendRetains(Without(l, k), e, i', touched);
    } else if |l| == cap {
      NotOldest(l, cap, e, i, touched);
      i' := i - 1;
      DropRetains(l, 0, i, touched);
      AppendRetains(l[1..], e, i', touched);
    } else {
      i' := i;
      AppendRetains(l, e, i, touched);
    }
  }

  lemma GetRetains<K, V>(l: seq<Entry<K, V>>, key: K, now: int, i: nat, touched: set<K>) returns (i': nat)
    requires i < |l| && NewerWithin(l, i, touched)
    requires key == l[i].key ==> Live(l[i], now) && Find(l, key) == i
    ensures i' < |AfterGet(l, key, now)| && AfterGet(l, key, now)[i'] == l[i]
    ensures NewerWithin(AfterGet(l, key, now), i', touched + if Lookup(l, key, now).Some? then {key} else {})
  {
    var k := Find(l, key);
    if k == |l| {
      i' := i;
    } else if k == i {
      i' := |l| - 1;
    } else {
      DropRetains(l, k, i, touched);
      i' := if i < k then i else i - 1;
      AppendRetains(Without(l, k), l[k], i', touched);
    }
  }

  /** One step keeps entry l[i], and only touched keys come after it. */
  lemma StepRetains<K, V>(l: seq<Entry<K, V>>, cap: nat, op: Op<K, V>, i: nat, touched: set<K>) returns (i': nat)
    requires cap > 0 && Inv(l, cap) && i < |l|
    requires op.AddOp? ==> op.entry.key != l[i].key
    requires op.GetOp? && op.key == l[i].key ==> Live(l[i], op.now)
    requires NewerWithin(l, i, touched)
    requires |(touched + Touched(l, op)) - {l[i].key}| < cap
    ensures i' < |Step(l, cap, op)| && Step(l, cap, op)[i'] == l[i]
    ensures NewerWithin(Step(l, cap, op), i', touched + Touched(l, op))
  {
    match op
    case AddOp(e) =>
      i' := AddRetains(l, cap, e, i, touched);
    case GetOp(key, now) =>
      FindUnique(l, i);
      i' := GetRetains(l, key, now, i, touched);
  }

  lemma SubsetSize<K>(a: set<K>, b: set<K>)
    requires a <= b
    ensures |a| <= |b|
  {
    assert b == a + (b - a);
  }

  lemma {:induction false} RunRetains<K, V>(l: seq<Entry<K, V>>, cap: nat, ops: seq<Op<K, V>>, i: nat, touched: set<K>)
    requires cap > 0 && Inv(l, cap) && i < |l|
    requires Keeps(ops, l[i]) && NewerWithin(l, i, touched)
    requires |(touched + TouchedRun(l, cap, ops)) - {l[i].key}| < cap
    ensures l[i] in Run(l, cap, ops)
    decreases |ops|
  {
    if ops != [] {
      var now' := touched + Touched(l, ops[0]);
      SubsetSize(now' - {l[i].key}, (touched + TouchedRun(l, cap, ops)) - {l[i].key});
      var i' := StepRetains(l, cap, ops[0], i, touched);
      StepInv(l, cap, ops[0]);
      var l' := Step(l, cap, ops[0]);
      assert now' + TouchedRun(l', cap, ops[1..]) == touched + TouchedRun(l, cap, ops);
      RunRetains(l', cap, ops[1..], i', now');
    }
  }

  lemma FoundLookup<K, V>(l: seq<Entry<K, V>>, cap: nat, e: Entry<K, V>, now: int)
    requires Inv(l, cap) && e in l && Live(e, now)
    ensures Lookup(l, e.key, now) == Some(e.value)
  {
    var j :| 0 <= j < |l| && l[j] == e;
    FindUnique(l, j);
  }

  lemma NewestWithin<K, V>(l: seq<Entry<K, V>>, i: nat)
    requires i + 1 == |l|
    ensures NewerWithin(l, i, {})
  {
  }

  /** An entry that was just used survives every run that brings fewer than
      `cap` distinct other keys to the front, and is still found. */
  lemma Retention<K, V>(l: seq<Entry<K, V>>, cap: nat, ops: seq<Op<K, V>>, now: int)
    requires cap > 0 && Inv(l, cap) && |l| > 0
    requires var e := l[|l| - 1]; Keeps(ops, e) && (e.expire == 0 || now < e.expire)
    requires |TouchedRun(l, cap, ops) - {l[|l| - 1].key}| < cap
    ensures Lookup(Run(l, cap, ops), l[|l| - 1].key, now) == Some(l[|l| - 1].value)
  {
    var n := |l| - 1;
    assert Live(l[n], now);
    NewestWithin(l, n);
    hide Inv, Keeps, Run, TouchedRun, Lookup, Live, NewerWithin;
    assert {} + TouchedRun(l, cap, ops) == TouchedRun(l, cap, ops);
    RunRetains(l, cap, ops, n, {});
    RunInv(l, cap, ops);
    FoundLookup(Run(l, cap, ops), cap, l[n], now);
  }

  /** A hit makes its entry the newest one, unchanged. */
  lemma HitIsNewest<K, V>(l: seq<Entry<K, V>>, cap: nat, key: K, now: int)
    requires Lookup(l, key, now).Some?
    ensures
      var l' := Step(l, cap, GetOp(key, now));
      && |l'| == |l| > 0 && l'[|l| - 1] == l[Find(l, key)] && l'[|l| - 1].key == key
      && l'[|l| - 1].value == Lookup(l, key, now).value
  {
  }

  lemma AddedIsNewest<K, V>(l: seq<Entry<K, V>>, cap: nat, e: Entry<K, V>)
    ensures var l' := Step(l, cap, AddOp(e)); |l'| > 0 && l'[|l'| - 1] == e
  {
  }

  /** Retention from a hit: the value that a get returned is returned again after every
      run that neither overwrites it nor lets it expire and brings fewer than `cap`
      distinct other keys to the front. */
  lemma RetentionAfterGet<K, V>(l: seq<Entry<K, V>>, cap: nat, key: K, t: int, ops: seq<Op<K, V>>, now: int)
    requires cap > 0 && Inv(l, cap) && Lookup(l, key, t).Some?
    requires var e := l[Find(l, key)]; Keeps(ops, e) && (e.expire == 0 || now < e.expire)
    requires |TouchedRun(Step(l, cap, GetOp(key, t)), cap, ops) - {key}| < cap
    ensures Lookup(Run(Step(l, cap, GetOp(key, t)), cap, ops), key, now) == Lookup(l, key, t)
  {
    StepInv(l, cap, GetOp(key, t));
    HitIsNewest(l, cap, key, t);
    hide Inv, Keeps, Run, TouchedRun, Lookup, Step;
    Retention(Step(l, cap, GetOp(key, t)), cap, ops, now);
  }

  /** Retention from an add. */
  lemma RetentionAfterAdd<K, V>(l: seq<Entry<K, V>>, cap: nat, e: Entry<K, V>, ops: seq<Op<K, V>>, now: int)
    requires cap > 0 && Inv(l, cap)
    requires Keeps(ops, e) && (e.expire == 0 || now < e.expire)
    requires |TouchedRun(Step(l, cap, AddOp(e)), cap, ops) - {e.key}| < cap
    ensures Lookup(Run(Step(l, cap, AddOp(e)), cap, ops), e.key, now) == Some(e.value)
  {
    StepInv(l, cap, AddOp(e));
    AddedIsNewest(l, cap, e);
    hide Inv, Keeps, Run, TouchedRun, Lookup, Step;
    Retention(Step(l, cap, AddOp(e)), cap, ops, now);
  }

  /** With capacity 2: after adding a and b and getting a, adding c evicts b and not a. */
  lemma HitProtects<K, V>(a: Entry<K, V>, b: Entry<K, V>, c: Entry<K, V>, t: int)
    requires a.key != b.key && a.key != c.key && b.key != c.key
    requires a.expire == 0 && b.expire == 0 && c.expire == 0
    ensures
      var l := Run([], 2, [AddOp(a), AddOp(b), GetOp(a.key, t), AddOp(c)]);
      Lookup(l, a.key, t) == Some(a.value) && Lookup(l, b.key, t) == None
  {
    var o1, o2, o3, o4 := AddOp(a), AddOp(b), GetOp(a.key, t), AddOp(c);
    assert Step([], 2, o1) == [a];
    assert Step([a], 2, o2) == [a, b];
    assert Find([a, b], a.key) == 0 && Step([a, b], 2, o3) == [b, a];
    assert Find([b, a], c.key) == 2 && Step([b, a], 2, o4) == [a, c];
    assert Find([a, c], a.key) == 0 && Find([a, c], b.key) == 2;
    hide Step, Run;
    RunNone([a, c], 2);
    RunCons([b, a], 2, o4, []);
    RunCons([a, b], 2, o3, [o4] + []);
    RunCons([a], 2, o2, [o3] + ([o4] + []));
    RunCons([], 2, o1, [o2] + ([o3] + ([o4] + [])));
    assert [o1] + ([o2] + ([o3] + ([o4] + []))) == [o1, o2, o3, o4];
  }

  lemma RunNone<K, V>(l: seq<Entry<K, V>>, cap: nat)
    ensures Run(l, cap, []) == l
  {
  }

  lemma RunCons<K, V>(l: seq<Entry<K, V>>, cap: nat, op: Op<K, V>, rest: seq<Op<K, V>>)
    ensures Run(l, cap, [op] + rest) == Run(Step(l, cap, op), cap, rest)
  {
    assert ([op] + rest)[1..] == rest;
  }

  /** A get keeps every entry except an expired one of its key, which it forgets. */
  lemma GetContents<K, V>(l: seq<Entry<K, V>>, cap: nat, key: K, now: int, x: Entry<K, V>)
    requires Inv(l, cap)
    ensures x in AfterGet(l, key, now) <==> x in l && (x.key != key || x.expire == 0 || now < x.expire)
  {
    var i := Find(l, key);
    if i < |l| {
      DropFacts(l, i);
      if x in l && x.key != key {
        var j :| 0 <= j < |l| && l[j] == x;
        assert Without(l, i)[if j < i then j else j - 1] == x;
        assert x in Without(l, i);
      }
      if x in l && x.key == key {
        var j :| 0 <= j < |l| && l[j] == x;
        FindUnique(l, j);
      }
    }
  }
}
