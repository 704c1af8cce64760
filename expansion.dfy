/**
 Expansion of nullable occurrences in a rule: every way of keeping or dropping
 each occurrence of a nullable symbol, all other symbols being kept. The loop
 and its specification are shared by both normalisers, which carry identical
 copies of the code.
 */
module Expansion {
  import opened Grammar

  /** `[r + [s] for r in cs]`. */
  function AppendAll(cs: seq<Rule>, s: Symbol): (ds: seq<Rule>)
    ensures |ds| == |cs|
    ensures forall k :: 0 <= k < |cs| ==> ds[k] == cs[k] + [s]
  {
    seq(|cs|, k requires 0 <= k < |cs| => cs[k] + [s])
  }

  /** The combinations list after processing `rule` from left to right: a
      nullable symbol doubles the list (the old combinations, then the same ones
      extended by the symbol); any other symbol extends each combination. */
  function Combos(rule: Rule, nullable: set<Symbol>): seq<Rule>
    decreases |rule|
  {
    if rule == [] then [[]]
    else
      var c := Combos(rule[..|rule| - 1], nullable);
      var s := rule[|rule| - 1];
      if s in nullable then c + AppendAll(c, s) else AppendAll(c, s)
  }

  /** `[r for r in combinations if r]`. */
  function NonEmpty(cs: seq<Rule>): seq<Rule>
  {
    Filter(cs, (r: Rule) => r != [])
  }

  /** `c` is `rule` with some occurrences of nullable symbols deleted: a
      subsequence that keeps every symbol not in `nullable`. */
  ghost predicate DropsOnlyNullable(c: Rule, rule: Rule, nullable: set<Symbol>)
    decreases |rule|
  {
    if rule == [] then c == []
    else
      var s := rule[|rule| - 1];
      (c != [] && c[|c| - 1] == s && DropsOnlyNullable(c[..|c| - 1], rule[..|rule| - 1], nullable))
      || (s in nullable && DropsOnlyNullable(c, rule[..|rule| - 1], nullable))
  }

  /** Number of occurrences of nullable symbols in `rule`. */
  function NullableCount(rule: Rule, nullable: set<Symbol>): nat
    decreases |rule|
  {
    if rule == [] then 0
    else NullableCount(rule[..|rule| - 1], nullable) + (if rule[|rule| - 1] in nullable then 1 else 0)
  }

  function Pow2(k: nat): nat
  {
    if k == 0 then 1 else 2 * Pow2(k - 1)
  }

  /** A rule with k nullable occurrences has exactly 2^k combinations (before
      the empty ones are filtered out). */
  lemma {:induction false} CombosCount(rule: Rule, nullable: set<Symbol>)
    ensures |Combos(rule, nullable)| == Pow2(NullableCount(rule, nullable))
    decreases |rule|
  {
    if rule != [] {
      CombosCount(rule[..|rule| - 1], nullable);
    }
  }

  /** Every combination drops only nullable occurrences. */
  lemma {:induction false} CombosSound(rule: Rule, nullable: set<Symbol>)
    ensures forall c :: c in Combos(rule, nullable) ==> DropsOnlyNullable(c, rule, nullable)
    decreases |rule|
  {
    if rule != [] {
      var init := rule[..|rule| - 1];
      var s := rule[|rule| - 1];
      CombosSound(init, nullable);
      var cs := Combos(init, nullable);
      forall c | c in Combos(rule, nullable) ensures DropsOnlyNullable(c, rule, nullable) {
        if c in AppendAll(cs, s) {
          var k :| 0 <= k < |cs| && AppendAll(cs, s)[k] == c;
          assert c[..|c| - 1] == cs[k];
        } else {
          assert s in nullable && c in cs;
        }
      }
    }
  }

  /** Every way of dropping nullable occurrences is among the combinations. */
  lemma {:induction false} CombosComplete(c: Rule, rule: Rule, nullable: set<Symbol>)
    requires DropsOnlyNullable(c, rule, nullable)
    ensures c in Combos(rule, nullable)
    decreases |rule|
  {
    if rule != [] {
      var init := rule[..|rule| - 1];
      var s := rule[|rule| - 1];
      var cs := Combos(init, nullable);
      if c != [] && c[|c| - 1] == s && DropsOnlyNullable(c[..|c| - 1], init, nullable) {
        CombosComplete(c[..|c| - 1], init, nullable);
        var k :| 0 <= k < |cs| && cs[k] == c[..|c| - 1];
        assert AppendAll(cs, s)[k] == c;
      } else {
        CombosComplete(c, init, nullable);
      }
    }
  }

  lemma {:induction false} DropsNothing(rule: Rule, nullable: set<Symbol>)
    ensures DropsOnlyNullable(rule, rule, nullable)
    decreases |rule|
  {
    if rule != [] {
      DropsNothing(rule[..|rule| - 1], nullable);
    }
  }

  /** A combination is a subsequence of the rule ... */
  lemma {:induction false} DropsIsSubsequence(c: Rule, rule: Rule, nullable: set<Symbol>)
    requires DropsOnlyNullable(c, rule, nullable)
    ensures IsSubsequence(c, rule)
    decreases |rule|
  {
    if rule != [] {
      var init := rule[..|rule| - 1];
      if c != [] && c[|c| - 1] == rule[|rule| - 1] && DropsOnlyNullable(c[..|c| - 1], init, nullable) {
        DropsIsSubsequence(c[..|c| - 1], init, nullable);
      } else {
        DropsIsSubsequence(c, init, nullable);
      }
    }
  }

  /** The symbols of `rule` that are not nullable, in order. */
  function Required(rule: Rule, nullable: set<Symbol>): Rule
  {
    Filter(rule, (s: Symbol) => s !in nullable)
  }

  /** ... and it keeps every non-nullable symbol, in order. */
  lemma {:induction false} DropsKeepsRequired(c: Rule, rule: Rule, nullable: set<Symbol>)
    requires DropsOnlyNullable(c, rule, nullable)
    ensures Required(c, nullable) == Required(rule, nullable)
    decreases |rule|
  {
    if rule != [] {
      var init := rule[..|rule| - 1];
      var s := rule[|rule| - 1];
      if c != [] && c[|c| - 1] == s && DropsOnlyNullable(c[..|c| - 1], init, nullable) {
        DropsKeepsRequired(c[..|c| - 1], init, nullable);
      } else {
        DropsKeepsRequired(c, init, nullable);
      }
    }
  }

  /** The rule itself is always one of its non-empty combinations. */
  lemma RuleAmongCombos(rule: Rule, nullable: set<Symbol>)
    requires rule != []
    ensures rule in NonEmpty(Combos(rule, nullable))
  {
    DropsNothing(rule, nullable);
    CombosComplete(rule, rule, nullable);
    FilterMembers(Combos(rule, nullable), (r: Rule) => r != []);
  }

  /** The loop at FormaNormalChomsky.py:88-94 (identical at
      LimpiaGramaticaLC.py:100-106) for one non-empty rule. */
  method ExpandRule(rule: Rule, nullable: set<Symbol>) returns (out: seq<Rule>)
    ensures out == NonEmpty(Combos(rule, nullable))
  {
    var combinations: seq<Rule> := [[]];
    for i := 0 to |rule|
      invariant combinations == Combos(rule[..i], nullable)
    {
      var symbol := rule[i];
      assert rule[..i + 1][..i] == rule[..i];
      if symbol in nullable {
        combinations := combinations + AppendAll(combinations, symbol);
      } else {
        combinations := AppendAll(combinations, symbol);
      }
    }
    assert rule[..|rule|] == rule;
    out := NonEmpty(combinations);
  }

  /** The new rule list of one key: the non-empty combinations of each non-empty
      rule, rule after rule. */
  function EpsFree(rules: seq<Rule>, nullable: set<Symbol>): seq<Rule>
    decreases |rules|
  {
    if rules == [] then []
    else
      var r := rules[|rules| - 1];
      EpsFree(rules[..|rules| - 1], nullable) + (if r != [] then NonEmpty(Combos(r, nullable)) else [])
  }

  /** The inner loop over the rules of one key. */
  method ExpandAll(rules: seq<Rule>, nullable: set<Symbol>) returns (out: seq<Rule>)
    ensures out == EpsFree(rules, nullable)
  {
    out := [];
    for i := 0 to |rules|
      invariant out == EpsFree(rules[..i], nullable)
    {
      assert rules[..i + 1][..i] == rules[..i];
      if rules[i] != [] {
        var more := ExpandRule(rules[i], nullable);
        out := out + more;
      }
    }
    assert rules[..|rules|] == rules;
  }

  /** No output rule is empty. */
  lemma {:induction false} EpsFreeNoEmpty(rules: seq<Rule>, nullable: set<Symbol>)
    ensures [] !in EpsFree(rules, nullable)
    decreases |rules|
  {
    if rules != [] {
      EpsFreeNoEmpty(rules[..|rules| - 1], nullable);
      FilterMembers(Combos(rules[|rules| - 1], nullable), (r: Rule) => r != []);
    }
  }

  /** Every output rule comes from a non-empty input rule by dropping nullable
      occurrences only. */
  lemma {:induction false} EpsFreeSound(rules: seq<Rule>, nullable: set<Symbol>, c: Rule)
    requires c in EpsFree(rules, nullable)
    ensures exists r :: r in rules && r != [] && DropsOnlyNullable(c, r, nullable)
    decreases |rules|
  {
    var init := rules[..|rules| - 1];
    var r := rules[|rules| - 1];
    if c in EpsFree(init, nullable) {
      EpsFreeSound(init, nullable, c);
      var r0 :| r0 in init && r0 != [] && DropsOnlyNullable(c, r0, nullable);
      assert r0 in rules;
    } else {
      FilterMembers(Combos(r, nullable), (x: Rule) => x != []);
      CombosSound(r, nullable);
    }
  }

  /** Every non-empty way of dropping nullable occurrences from a non-empty
      input rule is an output rule; in particular every non-empty input rule is. */
  lemma {:induction false} EpsFreeComplete(rules: seq<Rule>, nullable: set<Symbol>, r: Rule, c: Rule)
    requires r in rules && r != [] && c != [] && DropsOnlyNullable(c, r, nullable)
    ensures c in EpsFree(rules, nullable)
    decreases |rules|
  {
    var init := rules[..|rules| - 1];
    assert rules == init + [rules[|rules| - 1]];
    if r == rules[|rules| - 1] {
      CombosComplete(c, r, nullable);
      FilterMembers(Combos(r, nullable), (x: Rule) => x != []);
    } else {
      EpsFreeComplete(init, nullable, r, c);
    }
  }

  /** The output is empty exactly when every input rule is empty. */
  lemma {:induction false} EpsFreeEmpty(rules: seq<Rule>, nullable: set<Symbol>)
    ensures EpsFree(rules, nullable) == [] <==> forall r :: r in rules ==> r == []
    decreases |rules|
  {
    if rules != [] {
      var init := rules[..|rules| - 1];
      var r := rules[|rules| - 1];
      assert rules == init + [r];
      EpsFreeEmpty(init, nullable);
      if r != [] {
        RuleAmongCombos(r, nullable);
        assert r in EpsFree(rules, nullable);
        assert EpsFree(rules, nullable) != [];
        assert r in rules;
      } else {
        assert EpsFree(rules, nullable) == EpsFree(init, nullable);
        assert forall x :: x in rules <==> x in init || x == r;
      }
    }
  }

  /** The productions after empty-rule elimination in FormaNormalChomsky.py:83-95:
      every key keeps an entry. */
  function EmptyFree(p: Productions, nullable: set<Symbol>): Productions
  {
    map v | v in p :: EpsFree(p[v], nullable)
  }

  /** Every input key is an output key, no output rule is empty, every output
      rule of `v` drops only nullable occurrences from a non-empty input rule of
      `v`, and every non-empty input rule survives. */
  lemma EmptyFreeFacts(p: Productions, nullable: set<Symbol>)
    ensures EmptyFree(p, nullable).Keys == p.Keys
    ensures forall v :: v in p ==> [] !in EmptyFree(p, nullable)[v]
    ensures forall v, c :: v in p && c in EmptyFree(p, nullable)[v] ==>
              exists r :: r in p[v] && r != [] && DropsOnlyNullable(c, r, nullable)
    ensures forall v, r :: v in p && r in p[v] && r != [] ==> r in EmptyFree(p, nullable)[v]
  {
    var q := EmptyFree(p, nullable);
    forall v | v in p ensures [] !in q[v] {
      EpsFreeNoEmpty(p[v], nullable);
    }
    forall v, c | v in p && c in q[v] ensures exists r :: r in p[v] && r != [] && DropsOnlyNullable(c, r, nullable) {
      EpsFreeSound(p[v], nullable, c);
    }
    forall v, r | v in p && r in p[v] && r != [] ensures r in q[v] {
      DropsNothing(r, nullable);
      EpsFreeComplete(p[v], nullable, r, r);
    }
  }

  /** The productions after empty-rule elimination in LimpiaGramaticaLC.py:96-108:
      the output is a `defaultdict`, so only keys with some non-empty rule get
      an entry. */
  function DropEmpty(p: Productions, nullable: set<Symbol>): Productions
  {
    map v | v in p && EpsFree(p[v], nullable) != [] :: EpsFree(p[v], nullable)
  }

  /** A key keeps an entry exactly when it had a non-empty rule; no output rule
      is empty; every output rule drops only nullable occurrences from a
      non-empty input rule of its key; every non-empty input rule survives. */
  lemma DropEmptyFacts(p: Productions, nullable: set<Symbol>)
    ensures forall v :: v in DropEmpty(p, nullable) <==> v in p && exists r :: r in p[v] && r != []
    ensures forall v :: v in DropEmpty(p, nullable) ==> [] !in DropEmpty(p, nullable)[v]
    ensures forall v, c :: v in DropEmpty(p, nullable) && c in DropEmpty(p, nullable)[v] ==>
              exists r :: r in p[v] && r != [] && DropsOnlyNullable(c, r, nullable)
    ensures forall v, r :: v in p && r in p[v] && r != [] ==> v in DropEmpty(p, nullable) && r in DropEmpty(p, nullable)[v]
  {
    var q := DropEmpty(p, nullable);
    forall v | v in p ensures v in q <==> exists r :: r in p[v] && r != [] {
      EpsFreeEmpty(p[v], nullable);
    }
    forall v | v in q ensures [] !in q[v] {
      EpsFreeNoEmpty(p[v], nullable);
    }
    forall v, c | v in q && c in q[v] ensures exists r :: r in p[v] && r != [] && DropsOnlyNullable(c, r, nullable) {
      EpsFreeSound(p[v], nullable, c);
    }
    forall v, r | v in p && r in p[v] && r != [] ensures v in q && r in q[v] {
      DropsNothing(r, nullable);
      EpsFreeComplete(p[v], nullable, r, r);
    }
  }
}
