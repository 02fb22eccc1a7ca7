/** The fake-IP store of core/fake_ip.go: a next-fit allocator of addresses with
    expiry, and the reverse lookup.  Addresses are numbers, times are in
    nanoseconds, the clock is a parameter. */
module FakeIp {
  import opened Common

  const SECOND: int := 1_000_000_000
  const DEFAULT_TTL: nat := 60

  function LowerChar(c: char): char {
    if 'A' <= c <= 'Z' then c + 32 as char else c
  }

  function Lower(s: string): (r: string)
    ensures |r| == |s|
    ensures forall i :: 0 <= i < |s| ==> r[i] == if 'A' <= s[i] <= 'Z' then s[i] - 'A' + 'a' else s[i]
  {
    seq(|s|, i requires 0 <= i < |s| => LowerChar(s[i]))
  }

  lemma LowerTwice(s: string)
    ensures Lower(Lower(s)) == Lower(s)
  {
  }

  datatype Entry = Entry(domain: string, ip: nat, expires: int)

  /** base and size describe the prefix; the first address of it is not handed out. */
  datatype Store = Store(base: nat, size: nat, next: nat, byDomain: map<string, Entry>, byIp: map<nat, Entry>)

  predicate Usable(s: Store, ip: nat) {
    s.base < ip < s.base + s.size
  }

  /** The two maps are inverse to each other and all addresses are usable; the
      pool starts at its first address only while it is empty. */
  ghost predicate Inv(s: Store) {
    && s.size >= 2 && s.base < s.next <= s.base + s.size
    && (forall d :: d in s.byDomain ==>
          d != "" && s.byDomain[d].domain == d && s.byDomain[d].ip in s.byIp && s.byIp[s.byDomain[d].ip] == s.byDomain[d])
    && (forall ip :: ip in s.byIp ==>
          s.byIp[ip].ip == ip && s.byIp[ip].domain in s.byDomain && s.byDomain[s.byIp[ip].domain] == s.byIp[ip])
    && (forall ip :: ip in s.byIp ==> Usable(s, ip))
    && (s.next == s.base + 1 ==> s.byIp == map[])
  }

  function Fresh(base: nat, size: nat): Store {
    Store(base, size, base + 1, map[], map[])
  }

  // ----- operations

  function LiveOnly<K>(m: map<K, Entry>, now: int): map<K, Entry> {
    map k | k in m && m[k].expires > now :: m[k]
  }

  function Cleanup(s: Store, now: int): Store {
    s.(byDomain := LiveOnly(s.byDomain, now), byIp := LiveOnly(s.byIp, now))
  }

  function Delete(s: Store, e: Entry): Store {
    s.(byDomain := if e.domain in s.byDomain && s.byDomain[e.domain].ip == e.ip then s.byDomain - {e.domain} else s.byDomain,
       byIp := if e.ip in s.byIp && s.byIp[e.ip].domain == e.domain then s.byIp - {e.ip} else s.byIp)
  }

  function Put(s: Store, e: Entry): Store {
    s.(byDomain := s.byDomain[e.domain := e], byIp := s.byIp[e.ip := e])
  }

  /** The address probed after ip. */
  function Following(s: Store, ip: nat): nat {
    if ip + 1 >= s.base + s.size then s.base + 1 else ip + 1
  }

  /** The first free address among the n probed from ip on. */
  function FirstFree(s: Store, ip: nat, n: nat): Option<nat>
    decreases n
  {
    if n == 0 then None
    else if ip !in s.byIp then Some(ip)
    else FirstFree(s, Following(s, ip), n - 1)
  }

  function FirstProbe(s: Store): nat {
    if s.next < s.base + s.size then s.next else s.base + 1
  }

  function LifetimeOf(lifetime: int): (l: int)
    ensures l > 0 && (lifetime > 0 ==> l == lifetime) && (lifetime <= 0 ==> l == 60_000_000_000)
  {
    if lifetime <= 0 then DEFAULT_TTL * SECOND else lifetime
  }

  datatype AllocError = EmptyDomain | Exhausted

  /** fakeIPLifetime: at least one minute. */
  function FakeIPLifetime(ttl: nat): int {
    var seconds := if ttl == 0 then DEFAULT_TTL else ttl;
    if 60 * SECOND > seconds * SECOND then 60 * SECOND else seconds * SECOND
  }

  function Allotted(s: Store, domain: string, lifetime: int, now: int): (Store, Result<nat, AllocError>)
    requires s.size >= 2
  {
    var d := Lower(domain);
    if d == "" then (s, Err(EmptyDomain))
    else
      var c := Cleanup(s, now);
      var expires := now + LifetimeOf(lifetime);
      if d in c.byDomain then
        var e := c.byDomain[d].(expires := expires);
        (c.(byDomain := c.byDomain[d := e], byIp := c.byIp[e.ip := e]), Ok(e.ip))
      else
        match FirstFree(c, FirstProbe(c), s.size - 1)
        case None => (c, Err(Exhausted))
        case Some(ip) => (Put(c, Entry(d, ip, expires)).(next := ip + 1), Ok(ip))
  }

  function LookedUp(s: Store, ip: nat, now: int): (Store, Option<string>) {
    if ip !in s.byIp then (s, None)
    else if s.byIp[ip].expires <= now then (Delete(s, s.byIp[ip]), None)
    else (s, Some(s.byIp[ip].domain))
  }

  // ----- the probe order visits every usable address once

  /** The address after k probes. */
  function Nth(s: Store, k: nat): nat
    decreases k
  {
    if k == 0 then FirstProbe(s) else Following(s, Nth(s, k - 1))
  }

  lemma {:induction false} NthFormula(s: Store, k: nat)
    requires s.size >= 2 && s.base < s.next <= s.base + s.size && k < s.size - 1
    ensures Usable(s, Nth(s, k))
    ensures Nth(s, k) == var a := FirstProbe(s) + k; if a < s.base + s.size then a else a - s.size + 1
  {
    if k > 0 { NthFormula(s, k - 1); }
  }

  /** Every usable address is among the size - 1 probed ones. */
  lemma NthCovers(s: Store, ip: nat) returns (k: nat)
    requires s.size >= 2 && s.base < s.next <= s.base + s.size && Usable(s, ip)
    ensures k < s.size - 1 && Nth(s, k) == ip
  {
    var a := FirstProbe(s);
    k := if ip >= a then ip - a else ip - a + s.size - 1;
    NthFormula(s, k);
  }

  lemma {:induction false} FirstFreeFrom(s: Store, k: nat, n: nat)
    requires s.size >= 2 && s.base < s.next <= s.base + s.size && k + n <= s.size - 1
    ensures
      match FirstFree(s, Nth(s, k), n)
      case None => forall i :: k <= i < k + n ==> Nth(s, i) in s.byIp
      case Some(ip) => Usable(s, ip) && ip !in s.byIp
    decreases n
  {
    if n > 0 {
      NthFormula(s, k);
      FirstFreeFrom(s, k + 1, n - 1);
    }
  }

  /** The search fails exactly when every usable address is taken. */
  lemma FirstFreeExact(s: Store)
    requires s.size >= 2 && s.base < s.next <= s.base + s.size
    ensures
      match FirstFree(s, FirstProbe(s), s.size - 1)
      case None => forall ip :: Usable(s, ip) ==> ip in s.byIp
      case Some(ip) => Usable(s, ip) && ip !in s.byIp
  {
    FirstFreeFrom(s, 0, s.size - 1);
    assert Nth(s, 0) == FirstProbe(s);
    if FirstFree(s, FirstProbe(s), s.size - 1).None? {
      forall ip | Usable(s, ip) ensures ip in s.byIp {
        var k := NthCovers(s, ip);
      }
    }
  }

  // ----- invariant

  lemma CleanupInv(s: Store, now: int)
    requires Inv(s)
    ensures Inv(Cleanup(s, now))
    ensures forall ip :: ip in Cleanup(s, now).byIp <==> ip in s.byIp && s.byIp[ip].expires > now
  {
  }

  lemma PutInv(s: Store, e: Entry)
    requires Inv(s) && Usable(s, e.ip) && e.domain != "" && e.domain !in s.byDomain && e.ip !in s.byIp
    ensures Inv(Put(s, e).(next := e.ip + 1))
  {
  }

  lemma RefreshInv(s: Store, d: string, expires: int)
    requires Inv(s) && d in s.byDomain
    ensures Inv(Put(s, s.byDomain[d].(expires := expires)))
  {
  }

  lemma InvRange(s: Store)
    requires Inv(s)
    ensures s.size >= 2 && s.base < s.next <= s.base + s.size
  {
  }

  lemma AllocateInv(s: Store, domain: string, lifetime: int, now: int)
    requires Inv(s)
    ensures s.size >= 2 && Inv(Allotted(s, domain, lifetime, now).0)
  {
    hide Inv, FirstFree, LiveOnly, Lower;
    InvRange(s);
    var d, c := Lower(domain), Cleanup(s, now);
    CleanupInv(s, now);
    if d in c.byDomain {
      RefreshInv(c, d, now + LifetimeOf(lifetime));
    } else if d != "" {
      FirstFreeExact(c);
      match FirstFree(c, FirstProbe(c), s.size - 1) {
        case None =>
        case Some(ip) => PutInv(c, Entry(d, ip, now + LifetimeOf(lifetime)));
      }
    }
  }

  lemma LookupInv(s: Store, ip: nat, now: int)
    requires Inv(s)
    ensures Inv(LookedUp(s, ip, now).0)
  {
  }

  /** Allocation reports exhaustion exactly when the domain has no live address
      and every usable address is held by a live entry. */
  lemma ExhaustedExactly(s: Store, domain: string, lifetime: int, now: int)
    requires Inv(s) && Lower(domain) != ""
    ensures Allotted(s, domain, lifetime, now).1 == Err(Exhausted) <==>
      && (forall ip :: Usable(s, ip) ==> ip in s.byIp && s.byIp[ip].expires > now)
      && (forall ip :: ip in s.byIp && s.byIp[ip].expires > now ==> s.byIp[ip].domain != Lower(domain))
  {
    var d, c := Lower(domain), Cleanup(s, now);
    CleanupInv(s, now);
    FirstFreeExact(c);
    if d in c.byDomain {
      assert s.byIp[s.byDomain[d].ip].domain == d;
    }
    assert forall ip :: Usable(s, ip) <==> Usable(c, ip);
  }

  /** An allocated address is usable, maps back to the lower-case domain, was the
      domain's own before if that was still alive, and belonged to nobody alive
      otherwise. */
  lemma AllocateGives(s: Store, domain: string, lifetime: int, now: int)
    requires Inv(s) && Allotted(s, domain, lifetime, now).1.Ok?
    ensures
      var (s', r) := Allotted(s, domain, lifetime, now);
      var d, ip := Lower(domain), r.value;
      && Usable(s, ip)
      && ip in s'.byIp && s'.byIp[ip] == Entry(d, ip, now + LifetimeOf(lifetime))
      && (d in s.byDomain && s.byDomain[d].expires > now ==> ip == s.byDomain[d].ip)
      && (ip in s.byIp && s.byIp[ip].expires > now ==> s.byIp[ip].domain == d)
  {
    var d, c := Lower(domain), Cleanup(s, now);
    CleanupInv(s, now);
    if d !in c.byDomain {
      FirstFreeExact(c);
    }
  }

  // ----- runs

  datatype Op = Alloc(domain: string, lifetime: int, now: int) | Look(ip: nat, now: int)

  function Step(s: Store, op: Op): Store
    requires s.size >= 2
  {
    match op
    case Alloc(d, l, now) => Allotted(s, d, l, now).0
    case Look(ip, now) => LookedUp(s, ip, now).0
  }

  lemma StepInv(s: Store, op: Op)
    requires Inv(s)
    ensures Inv(Step(s, op)) && Step(s, op).base == s.base && Step(s, op).size == s.size
  {
    match op
    case Alloc(d, l, now) => AllocateInv(s, d, l, now);
    case Look(ip, now) => LookupInv(s, ip, now);
  }

  ghost function Run(s: Store, ops: seq<Op>): (r: Store)
    requires Inv(s)
    ensures Inv(r) && r.base == s.base && r.size == s.size
    decreases |ops|
  {
    if ops == [] then s else StepInv(s, ops[0]); Run(Step(s, ops[0]), ops[1..])
  }

  /** In every run the maps stay mutually inverse inside the usable range, so two
      domains never share an address. */
  lemma RunInv(base: nat, size: nat, ops: seq<Op>)
    requires size >= 2
    ensures Inv(Fresh(base, size))
    ensures
      var s := Run(Fresh(base, size), ops);
      forall d, e :: d in s.byDomain && e in s.byDomain && d != e ==>
        s.byDomain[d].ip != s.byDomain[e].ip && base < s.byDomain[d].ip < base + size
  {
    var s := Run(Fresh(base, size), ops);
    forall d, e | d in s.byDomain && e in s.byDomain && d != e
      ensures s.byDomain[d].ip != s.byDomain[e].ip && base < s.byDomain[d].ip < base + size
    {
      assert s.byIp[s.byDomain[d].ip] == s.byDomain[d] && s.byIp[s.byDomain[e].ip] == s.byDomain[e];
      assert Usable(s, s.byDomain[d].ip);
    }
  }

  /** The expiry of d's mapping after an operation. */
  function Renewed(d: string, expires: int, op: Op): int {
    if op.Alloc? && Lower(op.domain) == d then op.now + LifetimeOf(op.lifetime) else expires
  }

  /** While a mapping is alive, every operation keeps it; only its own domain can
      change its expiry. */
  lemma StepKeeps(s: Store, op: Op, ip: nat)
    requires Inv(s) && ip in s.byIp && s.byIp[ip].expires > op.now
    ensures
      var e, s' := s.byIp[ip], Step(s, op);
      ip in s'.byIp && s'.byIp[ip] == e.(expires := Renewed(e.domain, e.expires, op))
  {
    match op
    case Look(_, _) =>
    case Alloc(domain, l, now) =>
      var d, c := Lower(domain), Cleanup(s, now);
      CleanupInv(s, now);
      if d in c.byDomain {
        assert c.byIp[c.byDomain[d].ip] == c.byDomain[d];
      } else {
        FirstFreeExact(c);
      }
  }

  /** An address changes its owner only after the old mapping has expired. */
  lemma OwnerChangesAfterExpiry(s: Store, op: Op, ip: nat)
    requires Inv(s) && ip in s.byIp
    requires ip !in Step(s, op).byIp || Step(s, op).byIp[ip].domain != s.byIp[ip].domain
    ensures s.byIp[ip].expires <= op.now
  {
    if s.byIp[ip].expires > op.now {
      StepKeeps(s, op, ip);
    }
  }

  /** Every operation comes before the mapping's current expiry. */
  ghost predicate AliveThrough(d: string, expires: int, ops: seq<Op>)
    decreases |ops|
  {
    ops != [] ==> ops[0].now < expires && AliveThrough(d, Renewed(d, expires, ops[0]), ops[1..])
  }

  function ExpiryAfter(d: string, expires: int, ops: seq<Op>): int
    decreases |ops|
  {
    if ops == [] then expires else ExpiryAfter(d, Renewed(d, expires, ops[0]), ops[1..])
  }

  lemma {:induction false} RunKeeps(s: Store, ops: seq<Op>, ip: nat)
    requires Inv(s) && ip in s.byIp
    requires AliveThrough(s.byIp[ip].domain, s.byIp[ip].expires, ops)
    ensures
      var e, s' := s.byIp[ip], Run(s, ops);
      ip in s'.byIp && s'.byIp[ip] == e.(expires := ExpiryAfter(e.domain, e.expires, ops))
    decreases |ops|
  {
    if ops != [] {
      StepKeeps(s, ops[0], ip);
      StepInv(s, ops[0]);
      RunKeeps(Step(s, ops[0]), ops[1..], ip);
    }
  }

  /** Whatever happens after an allocation, the address leads back to the
      lower-case domain until the mapping expires. */
  lemma LookupUndoesAllocate(s: Store, domain: string, lifetime: int, now: int, ops: seq<Op>, later: int)
    requires Inv(s) && Allotted(s, domain, lifetime, now).1.Ok?
    requires
      var d, expires := Lower(domain), now + LifetimeOf(lifetime);
      AliveThrough(d, expires, ops) && later < ExpiryAfter(d, expires, ops)
    ensures
      var (s', r) := Allotted(s, domain, lifetime, now);
      && Inv(s')
      && LookedUp(Run(s', ops), r.value, later).1 == Some(Lower(domain))
  {
    hide Inv, Allotted, Run, AliveThrough, ExpiryAfter, Lower;
    AllocateInv(s, domain, lifetime, now);
    AllocateGives(s, domain, lifetime, now);
    var (s', r) := Allotted(s, domain, lifetime, now);
    RunKeeps(s', ops, r.value);
  }

  // ----- the store as an object

  class FakeIPStore {
    const base: nat
    const size: nat
    var next: nat
    var domainToEntry: map<string, Entry>
    var ipToEntry: map<nat, Entry>

    ghost function State(): Store
      reads this
    {
      Store(base, size, next, domainToEntry, ipToEntry)
    }

    ghost predicate Valid()
      reads this
    {
      Inv(State())
    }

    constructor (base: nat, size: nat)
      requires size >= 2
      ensures Valid() && State() == Fresh(base, size)
    {
      this.base, this.size := base, size;
      next, domainToEntry, ipToEntry := base + 1, map[], map[];
    }

    method DeleteEntry(entry: Entry)
      modifies this`domainToEntry, this`ipToEntry
      ensures State() == Delete(old(State()), entry)
    {
      if entry.domain in domainToEntry && domainToEntry[entry.domain].ip == entry.ip {
        domainToEntry := domainToEntry - {entry.domain};
      }
      if entry.ip in ipToEntry && ipToEntry[entry.ip].domain == entry.domain {
        ipToEntry := ipToEntry - {entry.ip};
      }
    }

    method CleanupExpired(now: int)
      requires Valid()
      modifies this`domainToEntry, this`ipToEntry
      ensures Valid() && State() == Cleanup(old(State()), now)
    {
      hide Inv, Delete, Cleaning;
      ghost var s := State();
      var todo := domainToEntry.Keys;
      CleaningStarts(s, now);
      while todo != {}
        invariant todo <= domainToEntry.Keys && Cleaning(s, State(), todo, now)
        decreases |todo|
      {
        var d :| d in todo;
        CleaningSteps(s, State(), todo, now, d);
        var entry := domainToEntry[d];
        if entry.expires <= now {
          DeleteEntry(entry);
        }
        todo := todo - {d};
      }
      CleaningEnds(s, State(), now);
    }

    method Allocate(domain: string, lifetime: int, now: int) returns (r: Result<nat, AllocError>)
      requires Valid()
      modifies this
      ensures Valid() && State() == Allotted(old(State()), domain, lifetime, now).0
      ensures r == Allotted(old(State()), domain, lifetime, now).1
    {
      hide Inv, FirstFree, Lower, LiveOnly;
      AllocateInv(State(), domain, lifetime, now);
      var d := Lower(domain);
      if d == "" {
        return Err(EmptyDomain);
      }
      var life := if lifetime <= 0 then DEFAULT_TTL * SECOND else lifetime;
      CleanupLive(State(), now);
      CleanupExpired(now);
      if d in domainToEntry {
        var entry := domainToEntry[d].(expires := now + life);
        domainToEntry := domainToEntry[d := entry];
        ipToEntry := ipToEntry[entry.ip := entry];
        return Ok(entry.ip);
      }
      var candidate := Probe(now);
      if candidate.None? {
        return Err(Exhausted);
      }
      var entry := Entry(d, candidate.value, now + life);
      domainToEntry := domainToEntry[d := entry];
      ipToEntry := ipToEntry[entry.ip := entry];
      next := candidate.value + 1;
      return Ok(entry.ip);
    }

    /** The probe loop.  It runs right after a cleanup, so an address found in the
        map is alive and the reuse of an expired one never arises here. */
    method Probe(now: int) returns (found: Option<nat>)
      requires Valid() && forall ip :: ip in ipToEntry ==> ipToEntry[ip].expires > now
      ensures found == FirstFree(State(), FirstProbe(State()), size - 1)
    {
      ghost var s, k := State(), 0;
      var start := next;
      var candidate := start;
      while true
        invariant 0 <= k < size - 1
        invariant (if candidate < base + size then candidate else base + 1) == Nth(s, k) && base < candidate <= base + size
        invariant k > 0 ==> candidate == Nth(s, k - 1) + 1
        invariant k > 0 ==> start > base + 1
        invariant FirstFree(s, FirstProbe(s), size - 1) == FirstFree(s, Nth(s, k), size - 1 - k)
        decreases size - 1 - k
      {
        NthFormula(s, k);
        if candidate >= base + size {
          candidate := base + 1;
        }
        if candidate !in ipToEntry {
          return Some(candidate);
        }
        candidate := candidate + 1;
        if candidate == start {
          LastProbe(s, k);
          return None;
        }
        NotLastProbe(s, k);
        k := k + 1;
      }
    }

    method LookupDomain(ip: nat, now: int) returns (r: Option<string>)
      requires Valid()
      modifies this`domainToEntry, this`ipToEntry
      ensures Valid() && State() == LookedUp(old(State()), ip, now).0
      ensures r == LookedUp(old(State()), ip, now).1
    {
      LookupInv(State(), ip, now);
      if ip !in ipToEntry {
        return None;
      }
      var entry := ipToEntry[ip];
      if entry.expires <= now {
        DeleteEntry(entry);
        return None;
      }
      return Some(entry.domain);
    }
  }

  lemma CleanupLive(s: Store, now: int)
    ensures forall ip :: ip in Cleanup(s, now).byIp ==> Cleanup(s, now).byIp[ip].expires > now
  {
  }

  /** t is s without some expired entries; those of `todo` were not looked at. */
  ghost predicate Cleaning(s: Store, t: Store, todo: set<string>, now: int) {
    && Inv(s) && Inv(t) && t == s.(byDomain := t.byDomain, byIp := t.byIp)
    && t.byDomain.Keys <= s.byDomain.Keys
    && (forall d :: d in t.byDomain ==> t.byDomain[d] == s.byDomain[d])
    && (forall d :: d in s.byDomain && s.byDomain[d].expires > now ==> d in t.byDomain)
    && (forall d :: d in t.byDomain && t.byDomain[d].expires <= now ==> d in todo)
  }

  lemma CleaningStarts(s: Store, now: int)
    requires Inv(s)
    ensures Cleaning(s, s, s.byDomain.Keys, now)
  {
  }

  lemma DeleteInv(s: Store, d: string)
    requires Inv(s) && d in s.byDomain
    ensures Inv(Delete(s, s.byDomain[d])) && Delete(s, s.byDomain[d]).byDomain == s.byDomain - {d}
  {
    assert s.byIp[s.byDomain[d].ip].domain == d;
  }

  lemma CleaningSteps(s: Store, t: Store, todo: set<string>, now: int, d: string)
    requires Cleaning(s, t, todo, now) && d in todo && todo <= t.byDomain.Keys
    ensures
      var t' := if t.byDomain[d].expires <= now then Delete(t, t.byDomain[d]) else t;
      Cleaning(s, t', todo - {d}, now) && todo - {d} <= t'.byDomain.Keys
  {
    hide Inv, Delete;
    DeleteInv(t, d);
    DeleteRest(t, t.byDomain[d]);
  }

  lemma DeleteRest(s: Store, e: Entry)
    ensures Delete(s, e) == s.(byDomain := Delete(s, e).byDomain, byIp := Delete(s, e).byIp)
  {
  }

  lemma CleaningEnds(s: Store, t: Store, now: int)
    requires Cleaning(s, t, {}, now)
    ensures Inv(t) && t == Cleanup(s, now)
  {
    hide Inv;
    CleanupInv(s, now);
    assert t.byDomain == Cleanup(s, now).byDomain;
    InverseMaps(t, Cleanup(s, now));
  }

  lemma InverseMaps(a: Store, b: Store)
    requires Inv(a) && Inv(b) && a.byDomain == b.byDomain
    ensures a.byIp == b.byIp
  {
    forall ip | ip in a.byIp || ip in b.byIp ensures ip in a.byIp && ip in b.byIp && a.byIp[ip] == b.byIp[ip] {
    }
  }

  /** Coming back to the start means that all size - 1 addresses were probed. */
  lemma LastProbe(s: Store, k: nat)
    requires Inv(s) && k < s.size - 1 && Nth(s, k) + 1 == s.next && (k > 0 ==> s.next > s.base + 1)
    requires Nth(s, k) in s.byIp
    ensures FirstFree(s, Nth(s, k), s.size - 1 - k) == None
  {
    NthFormula(s, k);
    assert k == s.size - 2;
  }

  lemma NotLastProbe(s: Store, k: nat)
    requires Inv(s) && k < s.size - 1 && Nth(s, k) + 1 != s.next && Nth(s, k) in s.byIp
    ensures k + 1 < s.size - 1 && s.next > s.base + 1
    ensures Nth(s, k + 1) == Following(s, Nth(s, k))
    ensures FirstFree(s, Nth(s, k), s.size - 1 - k) == FirstFree(s, Nth(s, k + 1), s.size - 1 - (k + 1))
  {
    NthFormula(s, k);
  }
}
