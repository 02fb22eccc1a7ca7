/** The fake-IP store seen through its history: which address an allocation takes, how
    long a mapping lasts, and where every answer of a lookup comes from. */
module FakeIpTrace {
  import opened Common
  import opened FakeIp

  /** A mapping lasts as many seconds as the DNS answer, and at least a minute. */
  lemma LifetimeSeconds(ttl: nat)
    ensures FakeIPLifetime(ttl) == 1_000_000_000 * if ttl < 60 then 60 else ttl
  {
  }

  // ----- which address

  /** How many usable addresses lie from next up to ip, going round. */
  function Ahead(s: Store, ip: nat): int {
    if ip >= s.next then ip - s.next else ip - s.next + s.size - 1
  }

  lemma NthAhead(s: Store, k: nat)
    requires s.size >= 2 && s.base < s.next <= s.base + s.size && k < s.size - 1
    ensures Ahead(s, Nth(s, k)) == k
  {
    hide Nth;
    NthFormula(s, k);
  }

  lemma {:induction false} FirstFreeNearest(s: Store, k: nat, n: nat, x: nat)
    requires s.size >= 2 && s.base < s.next <= s.base + s.size && k + n <= s.size - 1
    requires FirstFree(s, Nth(s, k), n).Some? && Usable(s, x) && x !in s.byIp && Ahead(s, x) >= k
    ensures Ahead(s, FirstFree(s, Nth(s, k), n).value) <= Ahead(s, x)
    decreases n
  {
    NthAhead(s, k);
    if Nth(s, k) in s.byIp {
      var j := NthCovers(s, x);
      NthAhead(s, j);
      FirstFreeNearest(s, k + 1, n - 1, x);
    }
  }

  /** A new domain gets the first address from next on, going round, that no live
      mapping holds, and the search goes on behind it the next time. */
  lemma AllocatesNearest(s: Store, domain: string, lifetime: int, now: int, x: nat)
    requires Inv(s) && Allotted(s, domain, lifetime, now).1.Ok?
    requires !(Lower(domain) in s.byDomain && s.byDomain[Lower(domain)].expires > now)
    requires Usable(s, x) && !(x in s.byIp && s.byIp[x].expires > now)
    ensures
      var (s', r) := Allotted(s, domain, lifetime, now);
      Ahead(s, r.value) <= Ahead(s, x) && s'.next == r.value + 1
  {
    var c := Cleanup(s, now);
    CleanupInv(s, now);
    assert x !in c.byIp && Lower(domain) !in c.byDomain;
    assert Nth(c, 0) == FirstProbe(c);
    hide Inv, Nth;
    AheadPositive(c, x);
    FirstFreeNearest(c, 0, c.size - 1, x);
  }

  lemma AheadPositive(s: Store, x: nat)
    requires Inv(s) && Usable(s, x)
    ensures 0 <= Ahead(s, x) < s.size - 1 && s.base < s.next <= s.base + s.size && s.size >= 2
  {
    var k := NthCovers(s, x);
    NthAhead(s, k);
  }

  /** A refresh leaves the place of the search alone, and so does a lookup. */
  lemma NextKept(s: Store, domain: string, lifetime: int, now: int, ip: nat)
    requires Inv(s)
    ensures Lower(domain) in s.byDomain && s.byDomain[Lower(domain)].expires > now ==>
      Allotted(s, domain, lifetime, now).0.next == s.next
    ensures LookedUp(s, ip, now).0.next == s.next
  {
  }

  /** The only name that is refused is the empty one. */
  lemma EmptyRefused(s: Store, domain: string, lifetime: int, now: int)
    requires Inv(s)
    ensures Allotted(s, domain, lifetime, now).1 == Err(EmptyDomain) <==> domain == ""
  {
    assert |Lower(domain)| == |domain|;
  }

  // ----- where answers come from

  lemma {:induction false} RunSnoc(s: Store, ops: seq<Op>, op: Op)
    requires Inv(s)
    ensures Run(s, ops + [op]) == Step(Run(s, ops), op)
    decreases |ops|
  {
    hide Inv, Step;
    if ops == [] {
      assert ops + [op] == [op] && [op][1..] == [];
      StepInv(s, op);
    } else {
      assert (ops + [op])[0] == ops[0] && (ops + [op])[1..] == ops[1..] + [op];
      StepInv(s, ops[0]);
      RunSnoc(Step(s, ops[0]), ops[1..], op);
    }
  }

  /** This operation asked for the mapping. */
  predicate Granted(op: Op, e: Entry) {
    op.Alloc? && Lower(op.domain) == e.domain && e.expires == op.now + LifetimeOf(op.lifetime)
  }

  lemma StepTraced(s: Store, op: Op, ip: nat)
    requires Inv(s) && ip in Step(s, op).byIp
    ensures var e := Step(s, op).byIp[ip]; (ip in s.byIp && s.byIp[ip] == e) || Granted(op, e)
  {
    match op
    case Look(_, _) =>
    case Alloc(domain, l, now) =>
      CleanupInv(s, now);
  }

  /** Every mapping of a run was asked for by one of its operations. */
  lemma {:induction false} EntryTraced(base: nat, size: nat, ops: seq<Op>, ip: nat) returns (k: nat)
    requires size >= 2 && Inv(Fresh(base, size)) && ip in Run(Fresh(base, size), ops).byIp
    ensures k < |ops| && Granted(ops[k], Run(Fresh(base, size), ops).byIp[ip])
    decreases |ops|
  {
    k := 0;
    if ops != [] {
      var n := |ops| - 1;
      var front := ops[..n];
      assert ops == front + [ops[n]];
      RunSnoc(Fresh(base, size), front, ops[n]);
      var s := Run(Fresh(base, size), front);
      hide Inv, Run, Step, Granted;
      StepTraced(s, ops[n], ip);
      if Granted(ops[n], Step(s, ops[n]).byIp[ip]) {
        k := n;
      } else {
        k := EntryTraced(base, size, front, ip);
      }
    }
  }

  /** Whatever a lookup answers in a run was allocated in it, in lower case, with a
      lifetime that is not over. */
  lemma LookupSound(base: nat, size: nat, ops: seq<Op>, ip: nat, now: int) returns (k: nat)
    requires size >= 2 && Inv(Fresh(base, size))
    requires LookedUp(Run(Fresh(base, size), ops), ip, now).1.Some?
    ensures k < |ops| && ops[k].Alloc?
    ensures LookedUp(Run(Fresh(base, size), ops), ip, now).1 == Some(Lower(ops[k].domain))
    ensures now < ops[k].now + LifetimeOf(ops[k].lifetime)
  {
    hide Inv, Run;
    k := EntryTraced(base, size, ops, ip);
  }

  /** After its expiry nobody finds a mapping any more. */
  lemma LookupEnds(s: Store, ip: nat, now: int)
    requires Inv(s) && ip in s.byIp && s.byIp[ip].expires <= now
    ensures LookedUp(s, ip, now).1 == None && ip !in LookedUp(s, ip, now).0.byIp
    ensures s.byIp[ip].domain !in LookedUp(s, ip, now).0.byDomain
  {
  }
}
