/** The plan of a request, case by case and in terms of the rules that match its host. */
module PlanCases {
  import opened Common
  import opened DialPlan
  import opened DomainRules
  import opened FakeIp
  import opened Routing

  /** No rule of the list matches the name. */
  ghost predicate Unmatched<T>(h: seq<Rule<T>>, domain: string) {
    forall i :: 0 <= i < |h| ==> !Matches(h[i], domain)
  }

  lemma ListedExactly<T>(h: seq<Rule<T>>, domain: string)
    ensures Listed(h, domain) <==> !Unmatched(h, domain)
  {
    hide DomainRules.Lookup;
    LookupDecides(h, domain);
  }

  /** A name that no rule matches and that the list does not hold, or that is exempt
      from it. */
  ghost predicate Ordinary(rules: Rules<Policy>, domain: string) {
    && Unmatched(rules.domains, domain) && Unmatched(rules.domains, Lower(domain))
    && (|| rules.gfw.None? || Unmatched(rules.gfw.value, Lower(domain))
        || (rules.bypass.Some? && !Unmatched(rules.bypass.value, Lower(domain))))
  }

  /** An ordinary name gets the plain policy and does not count as matched. */
  lemma OrdinaryIsPlain(env: Env, domain: string, port: int, preserve: bool, known: Option<string>)
    requires GenOk(env) && domain != "" && Ordinary(env.rules, domain)
    ensures
      match PlanFor(env, Name(domain), port, preserve, known)
      case Err(_) => true
      case Ok(p) => !p.matchedDomain && p.recovered == "" && (!p.blocked ==> p.policy == Some(env.plain))
  {
    hide Listed, Unmatched, Lower;
    ListedExactly(env.rules.domains, domain);
    ListedExactly(env.rules.domains, Lower(domain));
    LowerTwice(domain);
    if env.rules.gfw.Some? {
      ListedExactly(env.rules.gfw.value, Lower(domain));
    }
    if env.rules.bypass.Some? {
      ListedExactly(env.rules.bypass.value, Lower(domain));
    }
  }

  /** A name that a rule matches as it is written keeps the policy made for it, or the
      default one, and counts as matched. */
  lemma RuledKeepsPolicy(env: Env, domain: string, port: int, preserve: bool, known: Option<string>)
    requires GenOk(env) && domain != "" && !Unmatched(env.rules.domains, domain)
    ensures
      var g := env.gen(Name(domain), preserve);
      match PlanFor(env, Name(domain), port, preserve, known)
      case Err(_) => true
      case Ok(p) =>
        p.matchedDomain && (!p.blocked ==> p.policy == if g.domainNotFound then Some(env.default) else g.policy)
  {
    hide Listed, Unmatched;
    ListedExactly(env.rules.domains, domain);
  }

  /** An address without a known domain keeps the policy made for it. */
  lemma AddressKeepsPolicy(env: Env, host: Host, port: int, preserve: bool, known: Option<string>)
    requires GenOk(env) && !host.Name? && (known.None? || known == Some(""))
    ensures
      var g := env.gen(host, preserve);
      match PlanFor(env, host, port, preserve, known)
      case Err(_) => true
      case Ok(p) =>
        && !p.matchedDomain && p.recovered == "" && (env.hasIPPolicy(host) ==> p.matchedIP)
        && (!p.blocked ==> p.policy == if g.domainNotFound then Some(env.default) else g.policy)
  {
    hide Listed, ClassifyDomainRoute;
  }

  /** What every plan that is not blocked dials: the port of its policy if that has one,
      else the requested one; and the host that was made for it, or the planned one,
      mapped by NAT64 when the policy asks for it and the host is no unrecovered fake. */
  lemma DialsExactly(env: Env, host: Host, port: int, preserve: bool, known: Option<string>)
    requires GenOk(env) && host != Name("")
    ensures
      var h := if !host.Name? && known.Some? && known.value != "" then Name(known.value) else host;
      var g := env.gen(h, preserve);
      var dst := if g.domainNotFound then h else g.dst;
      var r := PlanFor(env, host, port, preserve, known);
      && (g.failed ==> r == Err(Failed))
      && (r.Ok? ==>
            var p := r.value;
            && (p.blocked <==> g.blocked)
            && (p.blocked ==> p.policy.None?)
            && (!p.blocked ==>
                  && p.policy.Some?
                  && p.port == (if p.policy.value.port > 0 then p.policy.value.port else port)
                  && (p.policy.value.nat64 && (p.recovered != "" || !env.isFake(dst)) ==>
                        env.nat64(dst, p.policy.value) == Some(p.target))
                  && (!(p.policy.value.nat64 && (p.recovered != "" || !env.isFake(dst))) ==> p.target == dst)))
  {
    hide Listed, ClassifyDomainRoute;
  }

  /** The errors: no host, a failed generation, or a NAT64 mapping that failed. */
  lemma FailsExactly(env: Env, host: Host, port: int, preserve: bool, known: Option<string>)
    requires GenOk(env)
    ensures
      var r := PlanFor(env, host, port, preserve, known);
      && (r == Err(EmptyHost) <==> host == Name(""))
      && (r == Err(Failed) <==>
            host != Name("") &&
            env.gen(if !host.Name? && known.Some? && known.value != "" then Name(known.value) else host, preserve).failed)
  {
    hide Listed, ClassifyDomainRoute;
  }

  /** Fake addresses are used exactly for names that a rule matches, or that the list
      holds without an exception. */
  lemma FakedExactly(rules: Rules<Policy>, domain: string)
    ensures
      var d := Lower(domain);
      ShouldUseFakeIP(rules, domain) <==>
      d != "" &&
      (|| !Unmatched(rules.domains, d)
       || (&& rules.gfw.Some? && !Unmatched(rules.gfw.value, d)
           && (rules.bypass.Some? ==> Unmatched(rules.bypass.value, d))))
  {
    hide Lower, Matches;
    ClassifiedBy(rules, domain);
  }
}
