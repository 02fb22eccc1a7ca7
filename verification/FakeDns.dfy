/** Answering DNS queries with fake addresses (core/dns_hijack.go).  The answer
    of the upstream resolver is a parameter. */
module FakeDns {
  import opened Common
  import opened FakeIp
  import opened Routing

  const TYPE_A: nat := 1
  const TYPE_AAAA: nat := 28
  const TYPE_HTTPS: nat := 65
  const CLASS_INET: nat := 1

  datatype RData = Address(ip: nat) | Other(payload: seq<nat>)

  datatype RR = RR(name: string, rrtype: nat, class_: nat, ttl: nat, data: RData)

  datatype Question = Question(name: string, qtype: nat, qclass: nat)

  datatype Msg = Msg(rcode: nat, question: seq<Question>, answer: seq<RR>, ns: seq<RR>, extra: seq<RR>)

  datatype DnsError = Upstream | Allocation(error: AllocError)

  // ----- TTLs

  /** buildFakeAnswerRR: the owner, class and TTL of the original, the fake address. */
  function FakeAnswer(name: string, rrtype: nat, class_: nat, ttl: nat, ip: nat): RR {
    RR(name, rrtype, class_, if ttl == 0 then DEFAULT_TTL else ttl, Address(ip))
  }

  function AllRecords(m: Msg): seq<RR> {
    m.answer + m.ns + m.extra
  }

  /** The least non-zero TTL of the message, or the default. */
  ghost predicate IsFallbackTTL(rrs: seq<RR>, ttl: nat) {
    && (forall i :: 0 <= i < |rrs| && rrs[i].ttl != 0 ==> ttl <= rrs[i].ttl)
    && (if forall i :: 0 <= i < |rrs| ==> rrs[i].ttl == 0 then ttl == 60
        else exists i :: 0 <= i < |rrs| && rrs[i].ttl == ttl != 0)
  }

  method FallbackFakeTTL(resp: Msg) returns (ttl: nat)
    ensures IsFallbackTTL(AllRecords(resp), ttl) && ttl > 0
  {
    var minTTL := 0;
    var rrs := AllRecords(resp);
    for k := 0 to |rrs|
      invariant forall i :: 0 <= i < k && rrs[i].ttl != 0 ==> 0 < minTTL <= rrs[i].ttl
      invariant minTTL != 0 ==> exists i :: 0 <= i < k && rrs[i].ttl == minTTL
    {
      if rrs[k].ttl != 0 && (minTTL == 0 || rrs[k].ttl < minTTL) {
        minTTL := rrs[k].ttl;
      }
    }
    return if minTTL == 0 then DEFAULT_TTL else minTTL;
  }

  // ----- rewriting an answer section

  /** Address records of the queried type become one fake record per owner name;
      everything else stays. */
  function Rewrite(rrs: seq<RR>, qtype: nat, ip: nat, seen: set<string>): seq<RR>
    decreases |rrs|
  {
    if rrs == [] then []
    else
      var rr, rest := rrs[0], rrs[1..];
      if rr.rrtype != qtype then [rr] + Rewrite(rest, qtype, ip, seen)
      else if rr.name in seen then Rewrite(rest, qtype, ip, seen)
      else [FakeAnswer(rr.name, qtype, rr.class_, rr.ttl, ip)] + Rewrite(rest, qtype, ip, seen + {rr.name})
  }

  function OtherTypes(rrs: seq<RR>, qtype: nat): seq<RR>
    decreases |rrs|
  {
    if rrs == [] then []
    else if rrs[0].rrtype != qtype then [rrs[0]] + OtherTypes(rrs[1..], qtype)
    else OtherTypes(rrs[1..], qtype)
  }

  function Owners(rrs: seq<RR>, qtype: nat): set<string> {
    set i | 0 <= i < |rrs| && rrs[i].rrtype == qtype :: rrs[i].name
  }

  /** The rewritten section has no upstream address, keeps all other records in
      order, and answers for exactly the owner names that had an address. */
  lemma {:induction false} RewriteFaithful(rrs: seq<RR>, qtype: nat, ip: nat, seen: set<string>)
    ensures
      var out := Rewrite(rrs, qtype, ip, seen);
      && OtherTypes(out, qtype) == OtherTypes(rrs, qtype)
      && Owners(out, qtype) == Owners(rrs, qtype) - seen
      && forall i :: 0 <= i < |out| && out[i].rrtype == qtype ==> out[i].data == Address(ip)
    decreases |rrs|
  {
    if rrs != [] {
      var rr, rest := rrs[0], rrs[1..];
      var out := Rewrite(rrs, qtype, ip, seen);
      assert Owners(rrs, qtype) == Owners(rest, qtype) + (if rr.rrtype == qtype then {rr.name} else {}) by {
        OwnersCons(rr, rest, qtype);
        assert [rr] + rest == rrs;
      }
      if rr.rrtype == qtype && rr.name in seen {
        RewriteFaithful(rest, qtype, ip, seen);
      } else {
        var seen' := if rr.rrtype == qtype then seen + {rr.name} else seen;
        RewriteFaithful(rest, qtype, ip, seen');
        var tail := Rewrite(rest, qtype, ip, seen');
        assert out[1..] == tail && out == [out[0]] + tail;
        OwnersCons(out[0], tail, qtype);
      }
    }
  }

  /** A fake record stands for an original one of the queried type: same owner, class
      and TTL, or a TTL of one minute for none. */
  ghost predicate StandsFor(out: RR, rr: RR, ip: nat) {
    && out.name == rr.name && out.rrtype == rr.rrtype && out.class_ == rr.class_
    && out.ttl == (if rr.ttl == 0 then 60 else rr.ttl) && out.data == Address(ip)
  }

  /** Every record of the queried type in the rewritten section stands for the first
      original record of its owner. */
  lemma {:induction false} RewriteStandsFor(rrs: seq<RR>, qtype: nat, ip: nat, seen: set<string>, i: nat) returns (j: nat)
    requires i < |Rewrite(rrs, qtype, ip, seen)| && Rewrite(rrs, qtype, ip, seen)[i].rrtype == qtype
    ensures j < |rrs| && rrs[j].rrtype == qtype && StandsFor(Rewrite(rrs, qtype, ip, seen)[i], rrs[j], ip)
    ensures rrs[j].name !in seen && forall m :: 0 <= m < j && rrs[m].rrtype == qtype ==> rrs[m].name != rrs[j].name
    decreases |rrs|
  {
    var rr, rest := rrs[0], rrs[1..];
    if rr.rrtype != qtype {
      j := RewriteStandsFor(rest, qtype, ip, seen, i - 1);
      j := j + 1;
    } else if rr.name in seen {
      j := RewriteStandsFor(rest, qtype, ip, seen, i);
      j := j + 1;
    } else if i == 0 {
      j := 0;
    } else {
      j := RewriteStandsFor(rest, qtype, ip, seen + {rr.name}, i - 1);
      j := j + 1;
    }
  }

  lemma OwnersCons(rr: RR, rest: seq<RR>, qtype: nat)
    ensures Owners([rr] + rest, qtype) == Owners(rest, qtype) + (if rr.rrtype == qtype then {rr.name} else {})
  {
    var all := [rr] + rest;
    forall x | x in Owners(rest, qtype) ensures x in Owners(all, qtype) {
      var i :| 0 <= i < |rest| && rest[i].rrtype == qtype && rest[i].name == x;
      assert all[i + 1] == rest[i];
    }
    if rr.rrtype == qtype {
      assert all[0].name in Owners(all, qtype);
    }
  }

  /** The index of the first record of the queried type, or |rrs|. */
  function FirstOf(rrs: seq<RR>, qtype: nat): (i: nat)
    ensures i <= |rrs|
    ensures i < |rrs| ==> rrs[i].rrtype == qtype
    ensures forall j :: 0 <= j < i ==> rrs[j].rrtype != qtype
  {
    if rrs == [] || rrs[0].rrtype == qtype then 0 else 1 + FirstOf(rrs[1..], qtype)
  }

  lemma {:induction false} RewriteWithout(rrs: seq<RR>, qtype: nat, ip: nat, seen: set<string>)
    requires FirstOf(rrs, qtype) == |rrs|
    ensures Rewrite(rrs, qtype, ip, seen) == rrs
    decreases |rrs|
  {
    if rrs != [] {
      RewriteWithout(rrs[1..], qtype, ip, seen);
    }
  }

  lemma OwnersOne(rr: RR, qtype: nat)
    ensures Owners([rr], qtype) == if rr.rrtype == qtype then {rr.name} else {}
  {
    if rr.rrtype == qtype {
      assert [rr][0].name in Owners([rr], qtype);
    }
  }

  /** What Rewrite makes of one record. */
  function RewriteOne(rr: RR, qtype: nat, ip: nat, seen: set<string>): seq<RR> {
    if rr.rrtype != qtype then [rr]
    else if rr.name in seen then []
    else [FakeAnswer(rr.name, qtype, rr.class_, rr.ttl, ip)]
  }

  lemma RewriteCons(rr: RR, rest: seq<RR>, qtype: nat, ip: nat, seen: set<string>)
    ensures Rewrite([rr] + rest, qtype, ip, seen) ==
            RewriteOne(rr, qtype, ip, seen) + Rewrite(rest, qtype, ip, seen + Owners([rr], qtype))
  {
    assert ([rr] + rest)[1..] == rest;
    OwnersOne(rr, qtype);
    if rr.rrtype == qtype && rr.name in seen {
      assert seen + {rr.name} == seen;
    }
    assert rr.rrtype != qtype ==> seen + Owners([rr], qtype) == seen;
    assert rr.rrtype == qtype ==> seen + Owners([rr], qtype) == seen + {rr.name};
  }

  lemma {:induction false} RewriteSplit(a: seq<RR>, b: seq<RR>, qtype: nat, ip: nat, seen: set<string>)
    ensures Rewrite(a + b, qtype, ip, seen) == Rewrite(a, qtype, ip, seen) + Rewrite(b, qtype, ip, seen + Owners(a, qtype))
    decreases |a|
  {
    if a == [] {
      assert a + b == b && seen + Owners(a, qtype) == seen;
    } else {
      hide Rewrite, RewriteOne, Owners;
      var head, tail := a[0], a[1..];
      assert a + b == [head] + (tail + b);
      assert a == [head] + tail;
      var seen' := seen + Owners([head], qtype);
      RewriteCons(head, tail + b, qtype, ip, seen);
      RewriteCons(head, tail, qtype, ip, seen);
      RewriteSplit(tail, b, qtype, ip, seen');
      OwnersCons(head, tail, qtype);
      OwnersOne(head, qtype);
      assert seen' + Owners(tail, qtype) == seen + Owners(a, qtype);
      Associative(RewriteOne(head, qtype, ip, seen), Rewrite(tail, qtype, ip, seen'),
                  Rewrite(b, qtype, ip, seen + Owners(a, qtype)));
    }
  }

  /** The reply that is promised when the domain is rewritten to ip. */
  ghost predicate FakeReply(upstream: Msg, q: Question, qtype: nat, ip: nat, reply: Msg) {
    && reply == upstream.(answer := reply.answer)
    && (FirstOf(upstream.answer, qtype) < |upstream.answer| ==> reply.answer == Rewrite(upstream.answer, qtype, ip, {}))
    && (FirstOf(upstream.answer, qtype) == |upstream.answer| ==>
          exists ttl :: IsFallbackTTL(AllRecords(upstream), ttl) && reply.answer == [FakeAnswer(q.name, q.qtype, q.qclass, ttl, ip)])
  }

  /** The TTL the mapping is allocated with. */
  ghost predicate UsesTTL(upstream: Msg, qtype: nat, ttl: nat) {
    var i := FirstOf(upstream.answer, qtype);
    if i < |upstream.answer| then ttl == upstream.answer[i].ttl else IsFallbackTTL(AllRecords(upstream), ttl)
  }

  /** allocateFakeIP on the store of the queried type. */
  method AllocateFakeIP(store: FakeIPStore, domain: string, ttl: nat, now: int) returns (r: Result<nat, AllocError>)
    requires store.Valid()
    modifies store
    ensures store.Valid()
    ensures (store.State(), r) == Allotted(old(store.State()), domain, FakeIPLifetime(ttl), now)
  {
    r := store.Allocate(domain, FakeIPLifetime(ttl), now);
  }

  /** The rewriting loop: the fake address is allocated at the first record of the
      queried type. */
  method RewriteAnswers(store: FakeIPStore, rrs: seq<RR>, domain: string, qtype: nat, now: int)
    returns (out: seq<RR>, fake: Option<nat>, error: Option<AllocError>)
    requires store.Valid()
    modifies store
    ensures store.Valid()
    ensures
      var i := FirstOf(rrs, qtype);
      if i == |rrs| then fake == None && error == None && store.State() == old(store.State())
      else
        var (s, r) := Allotted(old(store.State()), domain, FakeIPLifetime(rrs[i].ttl), now);
        && store.State() == s
        && match r
           case Err(e) => error == Some(e)
           case Ok(ip) => error == None && fake == Some(ip) && out == Rewrite(rrs, qtype, ip, {})
  {
    hide Allotted, Inv;
    InvRange(store.State());
    out, fake, error := [], None, None;
    var seen: set<string> := {};
    ghost var first := FirstOf(rrs, qtype);
    for k := 0 to |rrs|
      invariant store.Valid() && error == None
      invariant fake == None <==> k <= first
      invariant seen == Owners(rrs[..k], qtype)
      invariant fake == None ==> store.State() == old(store.State()) && out == rrs[..k]
      invariant fake.Some? ==>
        && first < |rrs|
        && (store.State(), Ok(fake.value)) == Allotted(old(store.State()), domain, FakeIPLifetime(rrs[first].ttl), now)
        && out == Rewrite(rrs[..k], qtype, fake.value, {})
    {
      var rr := rrs[k];
      assert rrs[..k + 1] == rrs[..k] + [rr];
      OwnersCons(rr, [], qtype);
      assert [rr] + [] == [rr];
      OwnersSnoc(rrs[..k], rr, qtype);
      if rr.rrtype != qtype {
        if fake.Some? {
          RewriteSnoc(rrs[..k], rr, qtype, fake.value);
        }
        out := out + [rr];
      } else {
        if fake.None? {
          var r := AllocateFakeIP(store, domain, rr.ttl, now);
          if r.Err? {
            error := Some(r.error);
            return;
          }
          fake := Some(r.value);
          FirstOfPrefix(rrs, qtype, k);
          RewriteWithout(rrs[..k], qtype, r.value, {});
        }
        RewriteSnoc(rrs[..k], rr, qtype, fake.value);
        if rr.name !in seen {
          seen := seen + {rr.name};
          out := out + [FakeAnswer(rr.name, rr.rrtype, rr.class_, rr.ttl, fake.value)];
        }
      }
    }
    assert rrs[..|rrs|] == rrs;
  }

  lemma FirstOfPrefix(rrs: seq<RR>, qtype: nat, k: nat)
    requires k <= FirstOf(rrs, qtype)
    ensures FirstOf(rrs[..k], qtype) == k
  {
  }

  lemma OwnersSnoc(rrs: seq<RR>, rr: RR, qtype: nat)
    ensures Owners(rrs + [rr], qtype) == Owners(rrs, qtype) + (if rr.rrtype == qtype then {rr.name} else {})
  {
    var all := rrs + [rr];
    forall x | x in Owners(rrs, qtype) ensures x in Owners(all, qtype) {
      var i :| 0 <= i < |rrs| && rrs[i].rrtype == qtype && rrs[i].name == x;
      assert all[i] == rrs[i];
    }
    if rr.rrtype == qtype {
      assert all[|rrs|].name in Owners(all, qtype);
    }
  }

  lemma RewriteSnoc(rrs: seq<RR>, rr: RR, qtype: nat, ip: nat)
    ensures Rewrite(rrs + [rr], qtype, ip, {}) == Rewrite(rrs, qtype, ip, {}) +
      (if rr.rrtype != qtype then [rr]
       else if rr.name in Owners(rrs, qtype) then []
       else [FakeAnswer(rr.name, qtype, rr.class_, rr.ttl, ip)])
  {
    RewriteSplit(rrs, [rr], qtype, ip, {});
    var seen := {} + Owners(rrs, qtype);
    assert [rr][1..] == [];
    assert Rewrite([rr], qtype, ip, seen) ==
      if rr.rrtype != qtype then [rr] + []
      else if rr.name in seen then []
      else [FakeAnswer(rr.name, qtype, rr.class_, rr.ttl, ip)] + [];
  }

  /** buildFakeAddressResponse.  The reply is the upstream's unless the domain is
      to be rewritten; then it is rewritten to the address now allocated to it. */
  method BuildFakeAddressResponse<P>(q: Question, domain: string, qtype: nat, upstream: Result<Msg, ()>,
                                     rules: Rules<P>, store: FakeIPStore, now: int)
    returns (r: Result<Msg, DnsError>)
    requires store.Valid() && q.qtype == qtype
    modifies store
    ensures store.Valid()
    ensures upstream.Err? ==> r == Err(Upstream) && store.State() == old(store.State())
    ensures upstream.Ok? && (upstream.value.rcode != 0 || !ShouldUseFakeIP(rules, domain)) ==>
      r == Ok(upstream.value) && store.State() == old(store.State())
    ensures upstream.Ok? && upstream.value.rcode == 0 && ShouldUseFakeIP(rules, domain) ==>
      exists ttl ::
        && UsesTTL(upstream.value, qtype, ttl)
        && var (s, a) := Allotted(old(store.State()), domain, FakeIPLifetime(ttl), now);
        && store.State() == s
        && match a
           case Err(e) => r == Err(Allocation(e))
           case Ok(ip) => r.Ok? && FakeReply(upstream.value, q, qtype, ip, r.value)
  {
    hide Allotted, Inv, ClassifyDomainRoute, Rewrite;
    InvRange(store.State());
    if upstream.Err? {
      return Err(Upstream);
    }
    var resp := upstream.value;
    if resp.rcode != 0 {
      return Ok(resp);
    }
    if !ShouldUseFakeIP(rules, domain) {
      return Ok(resp);
    }
    ghost var s0 := store.State();
    var out, fake, error := RewriteAnswers(store, resp.answer, domain, qtype, now);
    if error.Some? {
      assert UsesTTL(resp, qtype, resp.answer[FirstOf(resp.answer, qtype)].ttl);
      return Err(Allocation(error.value));
    }
    if fake.Some? {
      assert UsesTTL(resp, qtype, resp.answer[FirstOf(resp.answer, qtype)].ttl);
      return Ok(resp.(answer := out));
    }
    var ttl := FallbackFakeTTL(resp);
    assert UsesTTL(resp, qtype, ttl);
    var a := AllocateFakeIP(store, domain, ttl, now);
    if a.Err? {
      return Err(Allocation(a.error));
    }
    return Ok(resp.(answer := [FakeAnswer(q.name, q.qtype, q.qclass, ttl, a.value)]));
  }

  /** A fake reply names the fake address, and no other, for the queried type. */
  lemma FakeReplyAddresses(upstream: Msg, q: Question, qtype: nat, ip: nat, reply: Msg)
    requires q.qtype == qtype && FakeReply(upstream, q, qtype, ip, reply)
    ensures exists i :: 0 <= i < |reply.answer| && reply.answer[i].rrtype == qtype
    ensures forall i :: 0 <= i < |reply.answer| && reply.answer[i].rrtype == qtype ==> reply.answer[i].data == Address(ip)
    ensures FirstOf(upstream.answer, qtype) < |upstream.answer| ==>
      OtherTypes(reply.answer, qtype) == OtherTypes(upstream.answer, qtype)
    ensures FirstOf(upstream.answer, qtype) == |upstream.answer| ==>
      exists ttl :: IsFallbackTTL(AllRecords(upstream), ttl) && ttl > 0
                    && reply.answer == [RR(q.name, q.qtype, q.qclass, ttl, Address(ip))]
    ensures reply.rcode == upstream.rcode && reply.question == upstream.question
            && reply.ns == upstream.ns && reply.extra == upstream.extra
  {
    hide Rewrite;
    var k := FirstOf(upstream.answer, qtype);
    if k < |upstream.answer| {
      RewriteFaithful(upstream.answer, qtype, ip, {});
      assert upstream.answer[k].name in Owners(upstream.answer, qtype);
      assert upstream.answer[k].name in Owners(reply.answer, qtype);
    } else {
      assert reply.answer[0].rrtype == qtype;
    }
  }

  function TrimDot(name: string): string {
    if name != "" && name[|name| - 1] == '.' then name[..|name| - 1] else name
  }

  /** The query is about one address record of a domain. */
  predicate AsksAddress(req: seq<Question>) {
    |req| == 1 && req[0].qclass == 1 && req[0].qtype in {1, 28}
  }

  /** handleDNSQuery: everything but an answered A or AAAA question for a matching
      domain passes through. */
  method HandleDNSQuery<P>(req: seq<Question>, upstream: Result<Msg, ()>, rules: Rules<P>,
                           v4: FakeIPStore, v6: FakeIPStore, now: int)
    returns (r: Result<Msg, DnsError>)
    requires v4.Valid() && v6.Valid() && v4 != v6
    modifies v4, v6
    ensures v4.Valid() && v6.Valid()
    ensures !(AsksAddress(req) && upstream.Ok? && upstream.value.rcode == 0 &&
              ShouldUseFakeIP(rules, Lower(TrimDot(req[0].name)))) ==>
      && v4.State() == old(v4.State()) && v6.State() == old(v6.State())
      && r == if upstream.Ok? then Ok(upstream.value) else Err(Upstream)
    ensures AsksAddress(req) && req[0].qtype == TYPE_A ==> v6.State() == old(v6.State())
    ensures AsksAddress(req) && req[0].qtype == TYPE_AAAA ==> v4.State() == old(v4.State())
    ensures AsksAddress(req) && upstream.Ok? && upstream.value.rcode == 0 && ShouldUseFakeIP(rules, Lower(TrimDot(req[0].name))) ==>
      var store := if req[0].qtype == TYPE_A then v4 else v6;
      exists ttl ::
        && UsesTTL(upstream.value, req[0].qtype, ttl)
        && var (s, a) := Allotted(old(store.State()), Lower(TrimDot(req[0].name)), FakeIPLifetime(ttl), now);
        && store.State() == s
        && match a
           case Err(e) => r == Err(Allocation(e))
           case Ok(ip) => r.Ok? && FakeReply(upstream.value, req[0], req[0].qtype, ip, r.value)
  {
    hide Allotted, Inv, ClassifyDomainRoute, FakeReply, UsesTTL, Lower;
    InvRange(v4.State());
    InvRange(v6.State());
    var passed: Result<Msg, DnsError> := if upstream.Ok? then Ok(upstream.value) else Err(Upstream);
    if |req| != 1 {
      return passed;
    }
    var question := req[0];
    if question.qclass != CLASS_INET {
      return passed;
    }
    var domain := Lower(TrimDot(question.name));
    if question.qtype == TYPE_HTTPS {
      return passed;
    } else if question.qtype == TYPE_A {
      r := BuildFakeAddressResponse(question, domain, TYPE_A, upstream, rules, v4, now);
    } else if question.qtype == TYPE_AAAA {
      r := BuildFakeAddressResponse(question, domain, TYPE_AAAA, upstream, rules, v6, now);
    } else {
      return passed;
    }
  }
}
