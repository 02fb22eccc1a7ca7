/** What the pattern forms of the domain matcher mean for names as strings. */
module DomainPatterns {
  import opened Common
  import opened DomainRules

  /** The name is a proper subdomain of x. */
  predicate Under(d: string, x: string) {
    |d| > |x| && d[|d| - |x| - 1..] == "." + x
  }

  lemma {:induction false} DotAt(y: string, l: string)
    requires '.' !in l
    ensures LastDot(y + "." + l) == |y|
    decreases |l|
  {
    var d := y + "." + l;
    var n := |d| - 1;
    if l == "" {
      assert d[n] == '.';
    } else {
      assert d[n] == l[|l| - 1];
      assert d[..n] == y + "." + l[..|l| - 1];
      DotAt(y, l[..|l| - 1]);
    }
  }

  /** A name is cut at its last dot in one way only. */
  lemma CutUnique(y: string, l: string, z: string, m: string)
    requires '.' !in l && '.' !in m
    ensures y + "." + l == z + "." + m <==> y == z && l == m
  {
    hide LastDot;
    DotAt(y, l);
    DotAt(z, m);
    var d, e := y + "." + l, z + "." + m;
    assert y == d[..|y|] && l == d[|y| + 1..];
    assert z == e[..|z|] && m == e[|z| + 1..];
  }

  lemma NoDot(d: string)
    ensures LastDot(d) < 0 <==> '.' !in d
  {
    hide LastDot;
  }

  /** A name that has a dot, cut at its last one. */
  lemma CutAtDot(d: string)
    requires LastDot(d) >= 0
    ensures
      var j := LastDot(d);
      d == d[..j] + "." + d[j + 1..] && '.' !in d[j + 1..]
  {
    hide LastDot;
    var j := LastDot(d);
    assert d == d[..j] + [d[j]] + d[j + 1..];
    var l := d[j + 1..];
    assert forall i :: 0 <= i < |l| ==> l[i] == d[j + 1 + i];
  }

  lemma UnderFront(d: string, x: string) returns (front: string)
    requires Under(d, x)
    ensures d == front + "." + x
  {
    front := d[..|d| - |x| - 1];
    assert d == front + ("." + x);
  }

  lemma FrontUnder(front: string, x: string)
    ensures Under(front + "." + x, x)
  {
    assert front + "." + x == front + ("." + x);
  }

  /** Being under a name of several labels, label by label. */
  lemma UnderStep(y: string, l: string, x: string, m: string)
    requires '.' !in l && '.' !in m
    ensures Under(y + "." + l, x + "." + m) <==> l == m && Under(y, x)
  {
    var d, e := y + "." + l, x + "." + m;
    if Under(d, e) {
      var front := UnderFront(d, e);
      assert d == (front + "." + x) + "." + m;
      CutUnique(y, l, front + "." + x, m);
      FrontUnder(front, x);
    }
    if l == m && Under(y, x) {
      var front := UnderFront(y, x);
      assert d == front + "." + e;
      FrontUnder(front, e);
    }
  }

  lemma UnderLabel(y: string, l: string, x: string)
    requires '.' !in l && '.' !in x
    ensures Under(y + "." + l, x) <==> l == x
  {
    var d := y + "." + l;
    if Under(d, x) {
      var front := UnderFront(d, x);
      CutUnique(y, l, front, x);
    }
    if l == x {
      FrontUnder(y, x);
    }
  }

  lemma UnderHasDot(d: string, x: string)
    requires Under(d, x)
    ensures '.' in d
  {
    assert d[|d| - |x| - 1] == ("." + x)[0];
  }

  /** The labels of x begin those of d, with more to come, exactly if d is under x. */
  lemma {:induction false} WildIsUnder(x: string, d: string)
    requires x != "" && x[0] != '.'
    ensures Path(x) < Labels(d) <==> Under(d, x)
    decreases |x|
  {
    var i, j := LastDot(x), LastDot(d);
    NoDot(x);
    NoDot(d);
    if j < 0 {
      assert |Labels(d)| == 1 && |Path(x)| >= 1;
      if Under(d, x) { UnderHasDot(d, x); }
    } else {
      CutAtDot(d);
      var y, l := d[..j], d[j + 1..];
      assert Labels(d) == [l] + Labels(y) && |Labels(y)| > 0;
      if i < 0 {
        assert Path(x) == [x];
        UnderLabel(y, l, x);
        ConsPrefix(x, [], l, Labels(y));
      } else {
        CutAtDot(x);
        var x', m := x[..i], x[i + 1..];
        assert i > 0 && x'[0] == x[0];
        assert Path(x) == [m] + Path(x');
        WildIsUnder(x', y);
        UnderStep(y, l, x', m);
        ConsPrefix(m, Path(x'), l, Labels(y));
      }
    }
  }

  lemma ConsPrefix(a: string, p: seq<string>, b: string, q: seq<string>)
    ensures [a] + p < [b] + q <==> a == b && p < q
  {
    if [a] + p < [b] + q {
      assert ([b] + q)[0] == ([a] + p)[0];
      assert forall k :: 0 <= k < |p| ==> p[k] == ([a] + p)[k + 1] == ([b] + q)[k + 1] == q[k];
    }
  }

  lemma PathNone(d: string)
    ensures Path(d) == [] <==> d == ""
  {
  }

  lemma PathDotless(x: string)
    requires x != "" && LastDot(x) < 0
    ensures Path(x) == [x]
  {
    hide LastDot;
  }

  lemma PathCut(d: string)
    requires LastDot(d) >= 0
    ensures Path(d) == [d[LastDot(d) + 1..]] + Path(d[..LastDot(d)])
  {
    hide LastDot;
  }

  /** Equality of names of several labels, label by label. */
  lemma EqualStep(x': string, m: string, y: string, l: string)
    requires '.' !in m && '.' !in l
    ensures
      var x, d := x' + "." + m, y + "." + l;
      && (d == x <==> y == x' && l == m)
      && (d == "." + x <==> y == "." + x' && l == m)
  {
    CutUnique(y, l, x', m);
    CutUnique(y, l, "." + x', m);
    assert "." + (x' + "." + m) == ("." + x') + "." + m;
  }

  lemma EqualLabel(x: string, y: string, l: string)
    requires '.' !in x && '.' !in l
    ensures var d := y + "." + l; d != x && (d == "." + x <==> y == "" && l == x)
  {
    var d := y + "." + l;
    assert d[|y|] == '.';
    CutUnique(y, l, "", x);
    assert "" + "." + x == "." + x;
  }

  lemma ExactDotless(x: string, d: string)
    requires x != "" && x[0] != '.' && LastDot(d) < 0
    ensures Path(x) == Path(d) <==> d == x || d == "." + x
  {
    hide Path, LastDot;
    var i := LastDot(x);
    NoDot(x);
    NoDot(d);
    PathNone(x);
    PathNone(d);
    assert d != "." + x by { assert ("." + x)[0] == '.'; }
    if d != "" {
      PathDotless(d);
      if i < 0 {
        PathDotless(x);
      } else {
        PathCut(x);
        PathNone(x[..i]);
        assert |Path(x[..i])| > 0;
      }
    }
  }

  lemma ExactLabel(x: string, d: string)
    requires x != "" && LastDot(x) < 0 && LastDot(d) >= 0
    ensures Path(x) == Path(d) <==> d == x || d == "." + x
  {
    hide Path, LastDot;
    var j := LastDot(d);
    var y, l := d[..j], d[j + 1..];
    NoDot(x);
    CutAtDot(d);
    PathCut(d);
    PathDotless(x);
    PathNone(y);
    EqualLabel(x, y, l);
    ConsEqual(x, [], l, Path(y));
    assert [x] + [] == [x];
  }

  /** Equal paths are equal names, up to one leading dot of the name looked up. */
  lemma {:induction false} ExactIsEqual(x: string, d: string)
    requires x != "" && x[0] != '.'
    ensures Path(x) == Path(d) <==> d == x || d == "." + x
    decreases |x|
  {
    hide Path, LastDot;
    var i, j := LastDot(x), LastDot(d);
    if j < 0 {
      ExactDotless(x, d);
    } else if i < 0 {
      ExactLabel(x, d);
    } else {
      CutAtDot(x);
      var x', m := x[..i], x[i + 1..];
      assert i > 0 && x'[0] == x[0];
      ExactIsEqual(x', d[..j]);
      ExactStep(x, d);
    }
  }

  lemma ExactStep(x: string, d: string)
    requires LastDot(x) >= 0 && LastDot(d) >= 0
    requires
      var x', y := x[..LastDot(x)], d[..LastDot(d)];
      Path(x') == Path(y) <==> y == x' || y == "." + x'
    ensures Path(x) == Path(d) <==> d == x || d == "." + x
  {
    hide Path, LastDot;
    var i, j := LastDot(x), LastDot(d);
    var x', m, y, l := x[..i], x[i + 1..], d[..j], d[j + 1..];
    CutAtDot(d);
    PathCut(d);
    CutAtDot(x);
    PathCut(x);
    ConsEqual(m, Path(x'), l, Path(y));
    EqualStep(x', m, y, l);
  }

  lemma ConsEqual(a: string, p: seq<string>, b: string, q: seq<string>)
    ensures [a] + p == [b] + q <==> a == b && p == q
  {
    if [a] + p == [b] + q {
      assert p == ([a] + p)[1..] && q == ([b] + q)[1..];
      assert a == ([a] + p)[0] && b == ([b] + q)[0];
    }
  }

  // ----- the pattern forms

  /** "*" matches every name. */
  lemma StarMatchesAll<T>(value: T, d: string)
    ensures Parse("*", value).Some? && Matches(Parse("*", value).value, d)
  {
    assert [] < Labels(d);
  }

  /** "*.x" matches the names under x and not x itself. */
  lemma SubdomainPattern<T>(x: string, value: T, d: string)
    requires x != "" && x[0] != '.'
    ensures
      var r := Parse("*." + x, value);
      r.Some? && r.value.value == value && (Matches(r.value, d) <==> Under(d, x))
  {
    var pattern := "*." + x;
    assert pattern[1] == '.' && pattern[..2] == "*." && pattern[2..] == x && |pattern| > 1;
    hide Labels, Path, LastDot;
    WildIsUnder(x, d);
  }

  /** "*x" matches x and the names under it. */
  lemma SuffixPattern<T>(x: string, value: T, d: string)
    requires x != "" && x[0] != '.' && '.' in x
    ensures
      var r := Parse("*" + x, value);
      r.Some? && r.value.value == value && (Matches(r.value, d) <==> d == x || d == "." + x || Under(d, x))
  {
    var pattern := "*" + x;
    assert pattern[0] == '*' && pattern[1] == x[0] && pattern[1..] == x && pattern[..1] == "*" && |pattern| > 1;
    assert '.' in pattern by {
      var i :| 0 <= i < |x| && x[i] == '.';
      assert pattern[i + 1] == '.';
    }
    assert !("*." <= pattern);
    hide Labels, Path, LastDot;
    WildIsUnder(x, d);
    ExactIsEqual(x, d);
  }

  /** A plain pattern matches its own name only. */
  lemma PlainPattern<T>(x: string, value: T, d: string)
    requires x != "" && x[0] != '.' && x[0] != '*' && '.' in x
    ensures
      var r := Parse(x, value);
      r.Some? && r.value.value == value && (Matches(r.value, d) <==> d == x || d == "." + x)
  {
    assert !("*" <= x) && !("*." <= x);
    hide Labels, Path, LastDot;
    ExactIsEqual(x, d);
  }

  /** Everything without a dot is refused, except "*". */
  lemma DotlessRefused<T>(x: string, value: T)
    ensures Parse(x, value).None? <==> '.' !in x && x != "*"
  {
  }
}
