/** Which domains are treated specially (core/gfwlist.go). */
module Routing {
  import opened Common
  import opened DomainRules
  import FakeIp

  /** The explicit rules, and the built-in list with its exceptions once loaded. */
  datatype Rules<P> = Rules(domains: seq<Rule<P>>, gfw: Option<seq<Rule<()>>>, bypass: Option<seq<Rule<()>>>)

  predicate Listed<T>(h: seq<Rule<T>>, domain: string) {
    Lookup(h, domain).Some?
  }

  predicate IsGFWDomain<P>(rules: Rules<P>, domain: string) {
    if domain == "" || rules.gfw.None? then false
    else
      var d := FakeIp.Lower(domain);
      if rules.bypass.Some? && Listed(rules.bypass.value, d) then false
      else Listed(rules.gfw.value, d)
  }

  datatype RouteClass = Plain | ByRule | ByGFW

  function ClassifyDomainRoute<P>(rules: Rules<P>, domain: string): RouteClass {
    var d := FakeIp.Lower(domain);
    if d == "" then Plain
    else if Listed(rules.domains, d) then ByRule
    else if IsGFWDomain(rules, d) then ByGFW
    else Plain
  }

  predicate ShouldUseFakeIP<P>(rules: Rules<P>, domain: string) {
    ClassifyDomainRoute(rules, domain) != Plain
  }

  /** The classes by the rules that decide: an explicit rule wins over the list,
      an exception over an entry of the list. */
  lemma ClassifiedBy<P>(rules: Rules<P>, domain: string)
    ensures
      var d := FakeIp.Lower(domain);
      var c := ClassifyDomainRoute(rules, domain);
      && (c == ByRule <==> d != "" && exists i :: 0 <= i < |rules.domains| && Matches(rules.domains[i], d))
      && (c == ByGFW <==>
            && d != "" && (forall i :: 0 <= i < |rules.domains| ==> !Matches(rules.domains[i], d))
            && rules.gfw.Some? && (exists i :: 0 <= i < |rules.gfw.value| && Matches(rules.gfw.value[i], d))
            && (rules.bypass.Some? ==> forall i :: 0 <= i < |rules.bypass.value| ==> !Matches(rules.bypass.value[i], d)))
  {
    hide Lookup, FakeIp.Lower, Matches;
    var d := FakeIp.Lower(domain);
    FakeIp.LowerTwice(domain);
    LookupDecides(rules.domains, d);
    if rules.gfw.Some? { LookupDecides(rules.gfw.value, d); }
    if rules.bypass.Some? { LookupDecides(rules.bypass.value, d); }
  }
}
