/** The label trie of package addrtrie, proved against module DomainRules. */
module DomainTrie {
  import opened Common
  import opened DomainRules
  import opened Tries

  /** The values a node carries for the name itself and for the names below it. */
  datatype Marks<T> = Marks(exact: Option<T>, wildcard: Option<T>)

  function MarksOf<T>(h: seq<Rule<T>>, path: seq<string>): Marks<T> {
    Marks(Exact(h, path), Wild(h, path))
  }

  /** A later rule overrides the marks of its own path only. */
  lemma MarksAdded<T>(h: seq<Rule<T>>, r: Rule<T>, path: seq<string>)
    ensures MarksOf(h + [r], path) ==
      if path != r.path then MarksOf(h, path)
      else Marks(if r.exact then Some(r.value) else Exact(h, path), if r.wildcard then Some(r.value) else Wild(h, path))
  {
    assert (h + [r])[..|h|] == h;
  }

  class DomainMatcher<T> {
    const trie: Trie<string, Marks<T>>
    /** All rules added so far. */
    ghost var history: seq<Rule<T>>

    ghost predicate Valid()
      reads this, trie, trie.repr
    {
      && trie.Valid() && trie.blank == Marks(None, None)
      && (forall p :: trie.At(p) == MarksOf(history, p))
    }

    constructor ()
      ensures Valid() && history == [] && fresh(trie) && fresh(trie.repr)
    {
      trie := new Trie<string, Marks<T>>(Marks(None, None));
      history := [];
    }

    /** Records a rule at the node of path p. */
    method SetMarks(node: Node<string, Marks<T>>, value: T, isWildcard: bool, isExact: bool, ghost p: seq<string>)
      requires Valid() && p in trie.nodes && trie.nodes[p] == node
      modifies this`history, node`value
      ensures Valid() && history == old(history) + [Rule(p, value, isWildcard, isExact)]
    {
      hide MarksOf;
      ghost var r, h := Rule(p, value, isWildcard, isExact), history;
      MarksAt(p);
      var marks := node.value;
      if isWildcard {
        marks := marks.(wildcard := Some(value));
      }
      if isExact {
        marks := marks.(exact := Some(value));
      }
      MarksStored(h, r, marks);
      trie.SetValue(node, marks, p);
      history := history + [r];
    }

    lemma MarksAt(p: seq<string>)
      requires Valid() && p in trie.nodes
      ensures trie.nodes[p] in trie.repr && trie.nodes[p].value == MarksOf(history, p)
    {
      assert trie.At(p) == MarksOf(history, p);
    }

    method InsertPattern(pattern: string, value: T, isWildcard: bool, isExact: bool)
      requires Valid()
      modifies this, trie, trie.repr
      ensures Valid() && history == old(history) + [Rule(Path(pattern), value, isWildcard, isExact)]
      ensures fresh(trie.repr - old(trie.repr))
    {
      hide MarksOf, LastDot, Path;
      var node := trie.root;
      ghost var done: seq<string> := [];
      var i := |pattern| - 1;
      assert pattern[..i + 1] == pattern;
      while i >= 0
        invariant -1 <= i < |pattern|
        invariant Valid() && history == old(history)
        invariant fresh(trie.repr - old(trie.repr))
        invariant done in trie.nodes && trie.nodes[done] == node
        invariant done + Path(pattern[..i + 1]) == Path(pattern)
      {
        var rest := pattern[..i + 1];
        var j := LastDot(rest);
        var lab := if j == -1 then rest else rest[j + 1..];
        PathAdvance(done, rest);
        i := if j == -1 then -1 else j - 1;
        assert pattern[..i + 1] == if j == -1 then "" else rest[..j];
        node := trie.Descend(node, lab, done);
        done := done + [lab];
      }
      EmptyPath(pattern[..i + 1]);
      assert done == Path(pattern);
      SetMarks(node, value, isWildcard, isExact, done);
    }

    method Add(pattern: string, value: T) returns (ok: bool)
      requires Valid()
      modifies this, trie, trie.repr
      ensures Valid() && fresh(trie.repr - old(trie.repr))
      ensures
        match Parse(pattern, value)
        case None => !ok && history == old(history)
        case Some(r) => ok && history == old(history) + [r]
    {
      hide MarksOf, Path;
      if pattern == "*" {
        SetMarks(trie.root, value, true, false, []);
        return true;
      }
      if '.' !in pattern {
        return false;
      }
      if HasPrefix(pattern, "*.") {
        InsertPattern(pattern[2..], value, true, false);
      } else if HasPrefix(pattern, "*") {
        InsertPattern(pattern[1..], value, true, true);
      } else {
        InsertPattern(pattern, value, false, true);
      }
      return true;
    }

    /** Where the walk of a domain gets stuck, no longer prefix has a value. */
    lemma NothingMarked(p: seq<string>, q: seq<string>)
      requires Valid() && p !in trie.nodes && p <= q
      ensures Exact(history, q) == None && Wild(history, q) == None
    {
      hide Exact, Wild;
      assert q == p + q[|p|..];
      trie.NothingBelow(p, q[|p|..]);
      assert trie.At(q) == MarksOf(history, q);
    }

    lemma Stuck(domain: string, done: seq<string>, lab: string)
      requires Valid() && done + [lab] !in trie.nodes
      requires done + [lab] <= Labels(domain) && done + [lab] <= Path(domain)
      ensures Exact(history, Path(domain)) == None
      ensures Candidate(history, Labels(domain), |Labels(domain)| - 1) == Candidate(history, Labels(domain), |done|)
    {
      hide Exact, Wild, Labels, Path, Candidate;
      var p, ls := done + [lab], Labels(domain);
      forall m | |done| < m <= |ls| ensures Wild(history, ls[..m]) == None {
        assert p <= ls[..m];
        NothingMarked(p, ls[..m]);
      }
      CandidateSkip(history, ls, |done|, |ls| - 1);
      NothingMarked(p, Path(domain));
    }

    method Find(domain: string) returns (matched: Option<T>)
      requires Valid()
      ensures matched == Lookup(history, domain)
    {
      hide Exact, Wild, Labels, Path, Candidate, LongestWild, Walking, LastDot;
      var node := trie.root;
      var candidate: Option<T> := None;
      var fullyMatched := true;
      ghost var done: seq<string>, ls := [], Labels(domain);
      var i := |domain| - 1;
      assert domain[..i + 1] == domain;
      WalkStart(domain);
      CandidateZero(history, ls);
      while i >= 0
        invariant -1 <= i < |domain|
        invariant done in trie.nodes && trie.nodes[done] == node && fullyMatched
        invariant Walking(domain, done, domain[..i + 1]) && |done| <= |ls|
        invariant candidate == Candidate(history, ls, if |done| < |ls| then |done| else |ls| - 1)
      {
        var rest := domain[..i + 1];
        var j := LastDot(rest);
        var lab := if j == -1 then rest else rest[j + 1..];
        WalkStep(domain, done, rest);
        trie.ChildNode(done, lab);
        if lab !in node.children {
          fullyMatched := false;
          Stuck(domain, done, lab);
          break;
        }
        node := node.children[lab];
        CandidateStep(history, ls, |done| + 1);
        done := done + [lab];
        MarksAt(done);
        if j != -1 && node.value.wildcard.Some? {
          candidate := node.value.wildcard;
        }
        i := if j == -1 then -1 else j - 1;
        assert domain[..i + 1] == if j == -1 then "" else rest[..j];
      }
      CandidateOrRoot(history, ls, |ls| - 1);
      MarksAt([]);
      if fullyMatched {
        assert domain[..i + 1] == "";
        WalkEnd(domain, done);
        MarksAt(done);
        if node.value.exact.Some? {
          return node.value.exact;
        }
      }
      if candidate.Some? {
        return candidate;
      }
      return trie.root.value.wildcard;
    }
  }

  lemma MarksStored<T>(h: seq<Rule<T>>, r: Rule<T>, marks: Marks<T>)
    requires marks == Marks(if r.exact then Some(r.value) else MarksOf(h, r.path).exact,
                            if r.wildcard then Some(r.value) else MarksOf(h, r.path).wildcard)
    ensures forall p :: MarksOf(h + [r], p) == if p == r.path then marks else MarksOf(h, p)
  {
    forall p ensures MarksOf(h + [r], p) == if p == r.path then marks else MarksOf(h, p) {
      MarksAdded(h, r, p);
    }
  }

  // ----- walking the labels of a domain

  lemma EmptyPath(s: string)
    requires s == ""
    ensures Path(s) == []
  {
  }

  lemma PathAdvance(done: seq<string>, rest: string)
    requires rest != ""
    ensures
      var j := LastDot(rest);
      var lab := if j == -1 then rest else rest[j + 1..];
      done + Path(rest) == (done + [lab]) + Path(if j == -1 then "" else rest[..j])
  {
  }

  lemma LabelsAdvance(done: seq<string>, rest: string)
    ensures
      var j := LastDot(rest);
      var lab := if j == -1 then rest else rest[j + 1..];
      done + Labels(rest) == (done + [lab]) + (if j == -1 then [] else Labels(rest[..j]))
  {
  }

  /** The labels `done` were walked and `rest` is what is left of the domain. */
  ghost predicate Walking(domain: string, done: seq<string>, rest: string) {
    && done + Path(rest) == Path(domain)
    && done <= Labels(domain)
    && (rest != "" ==> done + Labels(rest) == Labels(domain))
  }

  lemma WalkStart(domain: string)
    ensures Walking(domain, [], domain)
  {
    assert [] + Path(domain) == Path(domain) && [] + Labels(domain) == Labels(domain);
  }

  lemma WalkStep(domain: string, done: seq<string>, rest: string)
    requires Walking(domain, done, rest) && rest != ""
    ensures
      var j := LastDot(rest);
      var lab := if j == -1 then rest else rest[j + 1..];
      var ls := Labels(domain);
      && Walking(domain, done + [lab], if j == -1 then "" else rest[..j])
      && |done| < |ls| && ls[..|done| + 1] == done + [lab]
      && done + [lab] <= ls && done + [lab] <= Path(domain)
      && (j == -1 <==> |done| + 1 == |ls|)
  {
    LabelsAdvance(done, rest);
    PathAdvance(done, rest);
  }

  lemma WalkEnd(domain: string, done: seq<string>)
    requires Walking(domain, done, "")
    ensures done == Path(domain) && |Labels(domain)| - 1 <= |done| <= |Labels(domain)|
  {
    PathIsLabels(domain);
  }

  /** The wildcard on the longest of the first n prefixes, the empty one excluded. */
  function Candidate<T>(h: seq<Rule<T>>, labels: seq<string>, n: nat): Option<T>
    requires n <= |labels|
    decreases n
  {
    if n == 0 then None
    else if Wild(h, labels[..n]).Some? then Wild(h, labels[..n])
    else Candidate(h, labels, n - 1)
  }

  lemma CandidateZero<T>(h: seq<Rule<T>>, labels: seq<string>)
    ensures Candidate(h, labels, 0) == None
  {
  }

  lemma CandidateStep<T>(h: seq<Rule<T>>, labels: seq<string>, n: nat)
    requires 0 < n <= |labels|
    ensures Candidate(h, labels, n) ==
            if Wild(h, labels[..n]).Some? then Wild(h, labels[..n]) else Candidate(h, labels, n - 1)
  {
  }

  lemma {:induction false} CandidateOrRoot<T>(h: seq<Rule<T>>, labels: seq<string>, n: nat)
    requires n <= |labels|
    ensures LongestWild(h, labels, n) == if Candidate(h, labels, n).Some? then Candidate(h, labels, n) else Wild(h, [])
  {
    if n == 0 {
      assert labels[..0] == [];
    } else {
      CandidateOrRoot(h, labels, n - 1);
    }
  }

  lemma {:induction false} CandidateSkip<T>(h: seq<Rule<T>>, labels: seq<string>, k: nat, n: nat)
    requires k <= n <= |labels|
    requires forall m :: k < m <= n ==> Wild(h, labels[..m]) == None
    ensures Candidate(h, labels, n) == Candidate(h, labels, k)
    decreases n
  {
    if k < n {
      CandidateSkip(h, labels, k, n - 1);
    }
  }
}
