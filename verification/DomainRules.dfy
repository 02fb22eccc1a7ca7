/** What a list of domain rules means, independent of any data structure. */
module DomainRules {
  import opened Common

  // ----- labels

  /** strings.LastIndexByte(s, '.') */
  function LastDot(s: string): (j: int)
    ensures -1 <= j < |s|
    ensures j >= 0 ==> s[j] == '.'
    ensures forall k :: j < k < |s| ==> s[k] != '.'
  {
    if s == "" then -1 else if s[|s| - 1] == '.' then |s| - 1 else LastDot(s[..|s| - 1])
  }

  /** The dot-separated labels of a name, last label first. */
  function Labels(s: string): (ls: seq<string>)
    ensures |ls| > 0
    decreases |s|
  {
    var j := LastDot(s);
    if j < 0 then [s] else [s[j + 1..]] + Labels(s[..j])
  }

  /** The labels the matcher walks: it stops when nothing is left of a dot. */
  function Path(s: string): seq<string>
    decreases |s|
  {
    if s == "" then []
    else
      var j := LastDot(s);
      if j < 0 then [s] else [s[j + 1..]] + Path(s[..j])
  }

  function Joined(ls: seq<string>): string
    requires |ls| > 0
  {
    if |ls| == 1 then ls[0] else Joined(ls[1..]) + "." + ls[0]
  }

  /** Labels is the inverse of joining with dots. */
  lemma {:induction false} LabelsJoin(s: string)
    ensures Joined(Labels(s)) == s
    ensures forall l :: l in Labels(s) ==> '.' !in l
    decreases |s|
  {
    var j := LastDot(s);
    if j >= 0 {
      LabelsJoin(s[..j]);
      assert Labels(s)[1..] == Labels(s[..j]);
      assert s == s[..j] + "." + s[j + 1..];
    }
  }

  /** The walked path is all labels, without an empty leftmost one. */
  lemma {:induction false} PathIsLabels(s: string)
    ensures Path(s) == var ls := Labels(s); if ls[|ls| - 1] == "" then ls[..|ls| - 1] else ls
    decreases |s|
  {
    var j := LastDot(s);
    if j >= 0 {
      PathIsLabels(s[..j]);
    }
  }

  // ----- rules

  datatype Rule<T> = Rule(path: seq<string>, value: T, wildcard: bool, exact: bool)

  function HasPrefix(s: string, p: string): bool {
    p <= s
  }

  /** The rule a pattern denotes; a pattern without a dot is refused unless it is "*". */
  function Parse<T>(pattern: string, value: T): Option<Rule<T>> {
    if pattern == "*" then Some(Rule([], value, true, false))
    else if '.' !in pattern then None
    else if HasPrefix(pattern, "*.") then Some(Rule(Path(pattern[2..]), value, true, false))
    else if HasPrefix(pattern, "*") then Some(Rule(Path(pattern[1..]), value, true, true))
    else Some(Rule(Path(pattern), value, false, true))
  }

  /** The value of the latest rule that names exactly this path. */
  function Exact<T>(h: seq<Rule<T>>, path: seq<string>): Option<T>
    decreases |h|
  {
    if h == [] then None
    else
      var r := h[|h| - 1];
      if r.exact && r.path == path then Some(r.value) else Exact(h[..|h| - 1], path)
  }

  /** The value of the latest wildcard rule below this path. */
  function Wild<T>(h: seq<Rule<T>>, path: seq<string>): Option<T>
    decreases |h|
  {
    if h == [] then None
    else
      var r := h[|h| - 1];
      if r.wildcard && r.path == path then Some(r.value) else Wild(h[..|h| - 1], path)
  }

  /** The wildcard on the longest of the first n prefixes. */
  function LongestWild<T>(h: seq<Rule<T>>, labels: seq<string>, n: nat): Option<T>
    requires n <= |labels|
    decreases n
  {
    if Wild(h, labels[..n]).Some? then Wild(h, labels[..n])
    else if n == 0 then None
    else LongestWild(h, labels, n - 1)
  }

  function Lookup<T>(h: seq<Rule<T>>, domain: string): Option<T> {
    var e := Exact(h, Path(domain));
    if e.Some? then e else LongestWild(h, Labels(domain), |Labels(domain)| - 1)
  }

  // ----- the same, by comparing rules

  predicate MatchesExactly<T>(r: Rule<T>, domain: string) {
    r.exact && r.path == Path(domain)
  }

  predicate MatchesWildly<T>(r: Rule<T>, domain: string) {
    r.wildcard && r.path < Labels(domain)
  }

  predicate Matches<T>(r: Rule<T>, domain: string) {
    MatchesExactly(r, domain) || MatchesWildly(r, domain)
  }

  /** Rule a takes precedence over rule b for this domain. */
  predicate Beats<T>(a: Rule<T>, b: Rule<T>, domain: string) {
    if MatchesExactly(a, domain) then true
    else !MatchesExactly(b, domain) && |a.path| >= |b.path|
  }

  /** h[k] is the last of the strongest matching rules. */
  ghost predicate Decides<T>(h: seq<Rule<T>>, domain: string, k: nat) {
    && k < |h| && Matches(h[k], domain)
    && (forall i :: 0 <= i < k && Matches(h[i], domain) ==> Beats(h[k], h[i], domain))
    && (forall i :: k < i < |h| && Matches(h[i], domain) ==> !Beats(h[i], h[k], domain))
  }

  lemma {:induction false} ExactLast<T>(h: seq<Rule<T>>, path: seq<string>) returns (k: nat)
    ensures Exact(h, path).Some? ==>
      && k < |h| && h[k].exact && h[k].path == path && Exact(h, path) == Some(h[k].value)
      && forall i :: k < i < |h| ==> !(h[i].exact && h[i].path == path)
    ensures Exact(h, path).None? ==> forall i :: 0 <= i < |h| ==> !(h[i].exact && h[i].path == path)
    decreases |h|
  {
    k := 0;
    if h != [] {
      var r := h[|h| - 1];
      if r.exact && r.path == path {
        k := |h| - 1;
      } else {
        k := ExactLast(h[..|h| - 1], path);
      }
    }
  }

  lemma {:induction false} WildLast<T>(h: seq<Rule<T>>, path: seq<string>) returns (k: nat)
    ensures Wild(h, path).Some? ==>
      && k < |h| && h[k].wildcard && h[k].path == path && Wild(h, path) == Some(h[k].value)
      && forall i :: k < i < |h| ==> !(h[i].wildcard && h[i].path == path)
    ensures Wild(h, path).None? ==> forall i :: 0 <= i < |h| ==> !(h[i].wildcard && h[i].path == path)
    decreases |h|
  {
    k := 0;
    if h != [] {
      var r := h[|h| - 1];
      if r.wildcard && r.path == path {
        k := |h| - 1;
      } else {
        k := WildLast(h[..|h| - 1], path);
      }
    }
  }

  lemma {:induction false} LongestWildLast<T>(h: seq<Rule<T>>, labels: seq<string>, n: nat) returns (k: nat)
    requires n <= |labels|
    ensures LongestWild(h, labels, n).Some? ==>
      && k < |h| && h[k].wildcard && h[k].path <= labels && |h[k].path| <= n
      && LongestWild(h, labels, n) == Some(h[k].value)
      && (forall i :: 0 <= i < |h| && h[i].wildcard && h[i].path <= labels && |h[i].path| <= n ==>
            |h[i].path| <= |h[k].path| && (i > k ==> |h[i].path| < |h[k].path|))
    ensures LongestWild(h, labels, n).None? ==>
      forall i :: 0 <= i < |h| ==> !(h[i].wildcard && h[i].path <= labels && |h[i].path| <= n)
    decreases n
  {
    k := WildLast(h, labels[..n]);
    assert forall i :: 0 <= i < |h| && h[i].path <= labels && |h[i].path| == n ==> h[i].path == labels[..n];
    if Wild(h, labels[..n]).None? && n > 0 {
      k := LongestWildLast(h, labels, n - 1);
    }
  }

  /** The lookup returns the value of the rule that decides, and fails exactly
      when no rule matches. */
  lemma LookupDecides<T>(h: seq<Rule<T>>, domain: string)
    ensures Lookup(h, domain).Some? ==>
      exists k: nat :: Decides(h, domain, k) && Lookup(h, domain) == Some(h[k].value)
    ensures Lookup(h, domain).None? <==> forall i :: 0 <= i < |h| ==> !Matches(h[i], domain)
  {
    var ls := Labels(domain);
    var e := ExactLast(h, Path(domain));
    var w := LongestWildLast(h, ls, |ls| - 1);
    assert forall i :: 0 <= i < |h| ==> (MatchesWildly(h[i], domain) <==> h[i].wildcard && h[i].path <= ls && |h[i].path| <= |ls| - 1);
    if Exact(h, Path(domain)).Some? {
      assert Decides(h, domain, e);
    } else if Lookup(h, domain).Some? {
      assert Decides(h, domain, w);
    }
  }

  /** At most one rule decides. */
  lemma DecidesUnique<T>(h: seq<Rule<T>>, domain: string, j: nat, k: nat)
    requires Decides(h, domain, j) && Decides(h, domain, k)
    ensures j == k
  {
  }
}
