/** Planning an outbound request (core/dial_plan.go), and the round trip of a
    domain through a fake DNS answer. */
module DialPlan {
  import opened Common
  import opened FakeDns
  import opened FakeIp
  import opened Routing

  /** A request host: a name, or a parsed IPv4 or IPv6 address. */
  datatype Host = Name(domain: string) | V4(ip: nat) | V6(ip: nat)

  datatype Policy = Policy(id: nat, port: int, nat64: bool)

  /** The result of genPolicy. */
  datatype Generated = Generated(dst: Host, policy: Option<Policy>, failed: bool, blocked: bool, domainNotFound: bool)

  /** The configuration; gen is genPolicy, gfw and plain are the merged fallback policies. */
  datatype Env = Env(rules: Rules<Policy>, default: Policy, gfw: Policy, plain: Policy,
                     gen: (Host, bool) -> Generated, hasIPPolicy: Host -> bool, isFake: Host -> bool,
                     nat64: (Host, Policy) -> Option<Host>)

  /** genPolicy returns a policy whenever it has none of its three excuses. */
  ghost predicate GenOk(env: Env) {
    forall h, b :: var g := env.gen(h, b); !g.failed && !g.blocked && !g.domainNotFound ==> g.policy.Some?
  }

  datatype Plan = Plan(recovered: string, matchedDomain: bool, matchedIP: bool, target: Host, port: int,
                       policy: Option<Policy>, blocked: bool)

  datatype PlanError = EmptyHost | Failed | Nat64

  /** LookupDomain of the resolver: the fake stores first, the reverse cache last. */
  method LookupDomainByIP(v4: FakeIPStore, v6: FakeIPStore, cached: Option<string>, host: Host, now: int)
    returns (r: Option<string>)
    requires v4.Valid() && v6.Valid() && v4 != v6 && !host.Name?
    modifies v4, v6
    ensures v4.Valid() && v6.Valid()
    ensures v4.State() == if host.V4? then LookedUp(old(v4.State()), host.ip, now).0 else old(v4.State())
    ensures v6.State() == if host.V4? then old(v6.State()) else LookedUp(old(v6.State()), host.ip, now).0
    ensures
      var own := if host.V4? then v4 else v6;
      r == if LookedUp(old(own.State()), host.ip, now).1.Some? then LookedUp(old(own.State()), host.ip, now).1 else cached
  {
    if host.V4? {
      r := v4.LookupDomain(host.ip, now);
    } else {
      r := v6.LookupDomain(host.ip, now);
    }
    if r.None? {
      r := cached;
    }
  }

  /** PlanRequest, given the domain the resolver knows for the address. */
  method PlanRequest(env: Env, host: Host, port: int, preserve: bool, known: Option<string>) returns (r: Result<Plan, PlanError>)
    requires GenOk(env)
    ensures r == PlanFor(env, host, port, preserve, known)
  {
    hide Decision;
    if host == Name("") {
      return Err(EmptyHost);
    }
    var recovered := "";
    var planningHost := host;
    var isIP := !host.Name?;
    if isIP {
      recovered := if known.Some? then known.value else "";
      if recovered != "" {
        planningHost := Name(recovered);
        isIP := false;
      }
    }
    r := Decide(env, planningHost, recovered, port, preserve);
  }

  /** The part of PlanRequest after the recovery of a domain. */
  method Decide(env: Env, planningHost: Host, recovered: string, port: int, preserve: bool) returns (r: Result<Plan, PlanError>)
    requires GenOk(env)
    ensures r == Decision(env, planningHost, recovered, port, preserve)
  {
    hide Listed, ClassifyDomainRoute;
    var isIP := !planningHost.Name?;
    var matchedDomain, matchedIP := false, false;
    if isIP {
      matchedIP := env.hasIPPolicy(planningHost);
    } else {
      matchedDomain := Listed(env.rules.domains, planningHost.domain);
    }
    var g := env.gen(planningHost, preserve);
    if g.failed {
      return Err(Failed);
    }
    if g.blocked {
      return Ok(Plan(recovered, matchedDomain, matchedIP, Name(""), 0, None, true));
    }
    var dst := g.dst;
    var policy: Policy;
    if g.domainNotFound {
      dst := planningHost;
      policy := env.default;
    } else {
      policy := g.policy.value;
    }
    if !isIP && !matchedDomain {
      match ClassifyDomainRoute(env.rules, planningHost.domain) {
        case ByGFW =>
          policy := env.gfw;
          matchedDomain := true;
        case Plain =>
          policy := env.plain;
        case ByRule =>
      }
    }
    if !matchedIP && !dst.Name? {
      if env.hasIPPolicy(dst) {
        matchedIP := true;
      }
    }
    if policy.nat64 && (recovered != "" || !env.isFake(dst)) {
      var mapped := env.nat64(dst, policy);
      if mapped.None? {
        return Err(Nat64);
      }
      dst := mapped.value;
    }
    var targetPort := if policy.port > 0 then policy.port else port;
    return Ok(Plan(recovered, matchedDomain, matchedIP, dst, targetPort, Some(policy), false));
  }

  /** The host the plan is made for. */
  function PlanningHost(host: Host, known: Option<string>): Host {
    if !host.Name? && known.Some? && known.value != "" then Name(known.value) else host
  }

  /** The policy of a plan that is neither failed nor blocked. */
  function PolicyFor(env: Env, h: Host, g: Generated): Policy
    requires g.domainNotFound || g.policy.Some?
  {
    var own := if g.domainNotFound then env.default else g.policy.value;
    if !h.Name? || Listed(env.rules.domains, h.domain) then own
    else
      match ClassifyDomainRoute(env.rules, h.domain)
      case ByGFW => env.gfw
      case Plain => env.plain
      case ByRule => own
  }

  function Decision(env: Env, h: Host, recovered: string, port: int, preserve: bool): Result<Plan, PlanError>
    requires GenOk(env)
  {
    var g := env.gen(h, preserve);
    var listed := h.Name? && Listed(env.rules.domains, h.domain);
    var ipListed := !h.Name? && env.hasIPPolicy(h);
    if g.failed then Err(Failed)
    else if g.blocked then Ok(Plan(recovered, listed, ipListed, Name(""), 0, None, true))
    else
      var dst, policy := if g.domainNotFound then h else g.dst, PolicyFor(env, h, g);
      var matchedDomain := listed || (h.Name? && ClassifyDomainRoute(env.rules, h.domain) == ByGFW);
      var matchedIP := ipListed || (!dst.Name? && env.hasIPPolicy(dst));
      var mapped := if policy.nat64 && (recovered != "" || !env.isFake(dst)) then env.nat64(dst, policy) else Some(dst);
      if mapped.None? then Err(Nat64)
      else Ok(Plan(recovered, matchedDomain, matchedIP, mapped.value, if policy.port > 0 then policy.port else port,
                   Some(policy), false))
  }

  function PlanFor(env: Env, host: Host, port: int, preserve: bool, known: Option<string>): Result<Plan, PlanError>
    requires GenOk(env)
  {
    var recovered := if host.Name? || known.None? then "" else known.value;
    if host == Name("") then Err(EmptyHost)
    else Decision(env, PlanningHost(host, known), recovered, port, preserve)
  }

  /** A domain that gets fake addresses is matched, and is not planned with the
      plain fallback. */
  lemma FakeDomainsMatch(env: Env, host: Host, port: int, preserve: bool, domain: string)
    requires GenOk(env) && !host.Name? && ShouldUseFakeIP(env.rules, domain)
    ensures
      match PlanFor(env, host, port, preserve, Some(Lower(domain)))
      case Err(_) => true
      case Ok(p) =>
        && p.recovered == Lower(domain)
        && (!p.blocked ==>
              && p.matchedDomain
              && var g := env.gen(Name(Lower(domain)), preserve);
                 p.policy == Some(if ClassifyDomainRoute(env.rules, domain) == ByGFW then env.gfw
                                  else if g.domainNotFound then env.default else g.policy.value))
  {
    hide Listed, IsGFWDomain, Lower;
    LowerTwice(domain);
    Classified(env.rules, domain);
  }

  lemma Classified(rules: Rules<Policy>, domain: string)
    ensures ClassifyDomainRoute(rules, Lower(domain)) == ClassifyDomainRoute(rules, domain)
    ensures ClassifyDomainRoute(rules, domain) == ByRule <==> Lower(domain) != "" && Listed(rules.domains, Lower(domain))
    ensures ClassifyDomainRoute(rules, domain) != Plain ==> Lower(domain) != ""
  {
    hide Listed, IsGFWDomain, Lower;
    LowerTwice(domain);
  }

  /** End to end: every address of the queried type in a rewritten answer leads the
      planner back to the queried domain while the mapping is alive, whatever else
      the store is asked in between. */
  lemma EndToEnd(env: Env, upstream: Msg, q: Question, reply: Msg, domain: string, ttl: nat, now: int,
                 s: Store, ip: nat, ops: seq<Op>, later: int, port: int, preserve: bool, i: nat)
    requires GenOk(env) && ShouldUseFakeIP(env.rules, domain)
    requires Inv(s) && Allotted(s, domain, FakeIPLifetime(ttl), now).1 == Ok(ip)
    requires FakeReply(upstream, q, q.qtype, ip, reply)
    requires i < |reply.answer| && reply.answer[i].rrtype == q.qtype
    requires
      var expires := now + LifetimeOf(FakeIPLifetime(ttl));
      AliveThrough(Lower(domain), expires, ops) && later < ExpiryAfter(Lower(domain), expires, ops)
    ensures
      var s' := Allotted(s, domain, FakeIPLifetime(ttl), now).0;
      && Inv(s')
      && reply.answer[i].data == Address(ip)
      && LookedUp(Run(s', ops), ip, later).1 == Some(Lower(domain))
      && match PlanFor(env, if q.qtype == TYPE_A then V4(ip) else V6(ip), port, preserve, LookedUp(Run(s', ops), ip, later).1)
         case Err(_) => true
         case Ok(p) =>
           && p.recovered == Lower(domain)
           && (!p.blocked ==>
                 && p.matchedDomain
                 && var g := env.gen(Name(Lower(domain)), preserve);
                    p.policy == Some(if ClassifyDomainRoute(env.rules, domain) == ByGFW then env.gfw
                                     else if g.domainNotFound then env.default else g.policy.value))
  {
    hide Inv, Allotted, Run, AliveThrough, ExpiryAfter, Lower, FakeReply, PlanFor, ClassifyDomainRoute, LookedUp;
    FakeReplyAddresses(upstream, q, q.qtype, ip, reply);
    LookupUndoesAllocate(s, domain, FakeIPLifetime(ttl), now, ops, later);
    FakeDomainsMatch(env, if q.qtype == TYPE_A then V4(ip) else V6(ip), port, preserve, domain);
  }
}
