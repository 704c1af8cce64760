/**
 Shared data model of a context-free grammar: symbols are strings, a rule
 (right-hand side) is a sequence of symbols, and the productions map each
 nonterminal to its list of rules, in order.
 */
module Grammar {

  type Symbol = string
  type Rule = seq<Symbol>
  type Productions = map<Symbol, seq<Rule>>

  /** Every symbol of `r` belongs to `s`: `all(symbol in s for symbol in r)`. */
  predicate AllIn(r: Rule, s: set<Symbol>)
  {
    forall x :: x in r ==> x in s
  }

  /** Some rule of `rules` is made only of symbols of `s`. */
  predicate AnyRuleIn(rules: seq<Rule>, s: set<Symbol>)
  {
    exists r :: r in rules && AllIn(r, s)
  }

  /** `{v: rules for v, rules in p.items() if v in keep}`: the entries of the
      kept keys, with their rule lists untouched. */
  function Restrict(p: Productions, keep: set<Symbol>): (q: Productions)
    ensures q.Keys == p.Keys * keep
    ensures forall v :: v in q ==> q[v] == p[v]
  {
    map v | v in p && v in keep :: p[v]
  }

  /** `productions.get(v, [])`. */
  function RulesOf(p: Productions, v: Symbol): (rules: seq<Rule>)
    ensures v !in p ==> rules == []
    ensures v in p ==> rules == p[v]
  {
    if v in p then p[v] else []
  }

  /** The order-preserving filter `[x for x in xs if f(x)]`, built from the back
      as a loop that appends would build it. */
  function Filter<T>(xs: seq<T>, f: T -> bool): (ys: seq<T>)
    decreases |xs|
  {
    if xs == [] then []
    else Filter(xs[..|xs| - 1], f) + (if f(xs[|xs| - 1]) then [xs[|xs| - 1]] else [])
  }

  /** `a` is obtained from `b` by deleting some elements. */
  ghost predicate IsSubsequence<T>(a: seq<T>, b: seq<T>)
    decreases |b|
  {
    if b == [] then a == []
    else
      (a != [] && a[|a| - 1] == b[|b| - 1] && IsSubsequence(a[..|a| - 1], b[..|b| - 1]))
      || IsSubsequence(a, b[..|b| - 1])
  }

  lemma {:induction false} FilterMembers<T>(xs: seq<T>, f: T -> bool)
    ensures forall x :: x in Filter(xs, f) <==> x in xs && f(x)
    decreases |xs|
  {
    if xs != [] {
      var init := xs[..|xs| - 1];
      FilterMembers(init, f);
      assert xs == init + [xs[|xs| - 1]];
    }
  }

  lemma {:induction false} FilterIsSubsequence<T>(xs: seq<T>, f: T -> bool)
    ensures IsSubsequence(Filter(xs, f), xs)
    decreases |xs|
  {
    if xs != [] {
      var init := xs[..|xs| - 1];
      FilterIsSubsequence(init, f);
      var ys := Filter(xs, f);
      if f(xs[|xs| - 1]) {
        assert ys[..|ys| - 1] == Filter(init, f);
      } else {
        assert ys == Filter(init, f);
      }
    }
  }

  lemma {:induction false} FilterAppend<T>(xs: seq<T>, x: T, f: T -> bool)
    ensures Filter(xs + [x], f) == Filter(xs, f) + (if f(x) then [x] else [])
  {
    assert (xs + [x])[..|xs|] == xs;
  }

  /** The rules of `rules` made only of symbols of `s`, in their order. */
  function KeepRules(rules: seq<Rule>, s: set<Symbol>): seq<Rule>
  {
    Filter(rules, (r: Rule) => AllIn(r, s))
  }

  lemma KeepRulesFacts(rules: seq<Rule>, s: set<Symbol>)
    ensures forall r :: r in KeepRules(rules, s) <==> r in rules && AllIn(r, s)
    ensures IsSubsequence(KeepRules(rules, s), rules)
  {
    FilterMembers(rules, (r: Rule) => AllIn(r, s));
    FilterIsSubsequence(rules, (r: Rule) => AllIn(r, s));
  }

  /** No element occurs twice. */
  predicate NoDup<T(==)>(s: seq<T>)
  {
    forall i, j :: 0 <= i < j < |s| ==> s[i] != s[j]
  }

  lemma NoDupConcat<T>(a: seq<T>, b: seq<T>)
    requires NoDup(a) && NoDup(b)
    requires forall x :: x in a ==> x !in b
    ensures NoDup(a + b)
  {
    forall i, j | 0 <= i < j < |a + b| ensures (a + b)[i] != (a + b)[j] {
      if i < |a| && j >= |a| {
        assert (a + b)[i] in a && (a + b)[j] in b;
      }
    }
  }

  lemma {:induction false} SubsetCard<T>(a: set<T>, b: set<T>)
    requires a <= b
    ensures |a| <= |b|
    decreases |a|
  {
    if a != {} {
      var x :| x in a;
      SubsetCard(a - {x}, b - {x});
    }
  }

  lemma ProperSubsetCard<T>(a: set<T>, b: set<T>)
    requires a < b
    ensures |a| < |b|
  {
    var x :| x in b && x !in a;
    SubsetCard(a, b - {x});
  }
}
