/**
 The Chomsky normal form converter of FormaNormalChomsky.py: an object that
 holds a grammar and rewrites its productions in place, pass by pass (new
 start symbol, useless symbols, empty rules, unit rules, long rules).
 */
module Cnf {
  import opened Grammar
  import opened Fixpoints
  import opened Graphs
  import opened Expansion
  import opened Units
  import opened Names

  /** Undo a sequence of binarisation steps, the last one first: a step `(x,
      pair)` puts `pair` back in place of a leading `x`. */
  function Unchain(b: Rule, chain: seq<(Symbol, Rule)>): Rule
    decreases |chain|
  {
    if chain == [] then b
    else
      var step := chain[|chain| - 1];
      var b' := if |b| > 0 && b[0] == step.0 then step.1 + b[1..] else b;
      Unchain(b', chain[..|chain| - 1])
  }

  /** Every step of `chain` names a variable new to `p` whose only rule in `m` is
      the step's pair. */
  ghost predicate ChainIn(m: Productions, p: Productions, chain: seq<(Symbol, Rule)>)
  {
    forall j :: 0 <= j < |chain| ==> chain[j].0 in m && chain[j].0 !in p && m[chain[j].0] == [chain[j].1]
  }

  /** `b` is the binarised form of the rule `r`: at most two symbols, `r` itself
      when `r` was short, and `r` again once the new variables of `m` are
      expanded. */
  ghost predicate RuleBinarised(m: Productions, p: Productions, b: Rule, r: Rule)
  {
    && |b| <= 2
    && (|r| <= 2 ==> b == r)
    && (|r| > 2 ==> |b| == 2)
    && exists chain :: ChainIn(m, p, chain) && Unchain(b, chain) == r
  }

  /** The entry of key `v` of `m` rewrites the rules of `v` in `p` one for one. */
  ghost predicate KeyBinarised(m: Productions, p: Productions, v: Symbol)
  {
    && v in p && v in m
    && |m[v]| == |p[v]|
    && forall i :: 0 <= i < |p[v]| ==> RuleBinarised(m, p, m[v][i], p[v][i])
  }

  /** `m'` keeps every entry of `m` whose key is new to `p`. */
  ghost predicate KeepsNew(m: Productions, m': Productions, p: Productions)
  {
    forall x :: x in m && x !in p ==> x in m' && m'[x] == m[x]
  }

  /** The result of the binarisation pass: old keys rewritten rule by rule,
      every new key holding a single rule of two symbols. */
  ghost predicate Binarised(m: Productions, p: Productions)
  {
    && p.Keys <= m.Keys
    && (forall v :: v in p ==> KeyBinarised(m, p, v))
    && (forall x :: x in m && x !in p ==> |m[x]| == 1 && |m[x][0]| == 2)
  }

  lemma RuleBinarisedKept(m: Productions, m': Productions, p: Productions, b: Rule, r: Rule)
    requires RuleBinarised(m, p, b, r) && KeepsNew(m, m', p)
    ensures RuleBinarised(m', p, b, r)
  {
    var chain :| ChainIn(m, p, chain) && Unchain(b, chain) == r;
    assert ChainIn(m', p, chain);
  }

  lemma KeyBinarisedKept(m: Productions, m': Productions, p: Productions, v: Symbol)
    requires KeyBinarised(m, p, v) && KeepsNew(m, m', p) && v in m' && m'[v] == m[v]
    ensures KeyBinarised(m', p, v)
  {
    forall i | 0 <= i < |p[v]| ensures RuleBinarised(m', p, m'[v][i], p[v][i]) {
      RuleBinarisedKept(m, m', p, m[v][i], p[v][i]);
    }
  }

  /** After binarisation every rule has at most two symbols, and none is empty
      when none was before. */
  lemma BinarisedShape(m: Productions, p: Productions)
    requires Binarised(m, p)
    requires forall v :: v in p ==> [] !in p[v]
    ensures forall v, b :: v in m && b in m[v] ==> 1 <= |b| <= 2
  {
    forall v, b | v in m && b in m[v] ensures 1 <= |b| <= 2 {
      var i :| 0 <= i < |m[v]| && m[v][i] == b;
      if v in p {
        assert RuleBinarised(m, p, b, p[v][i]);
        assert p[v][i] in p[v];
      }
    }
  }

  /** The productions that reach the unit pass of `convert_to_cnf`
      (FormaNormalChomsky.py:20-22): `s0 -> [start]` added, the entries of keys
      not both generating and reachable dropped, empty rules expanded. */
  ghost function BeforeUnits(p: Productions, vars: set<Symbol>, terms: set<Symbol>, start: Symbol, s0: Symbol): Productions
  {
    var p1 := p[s0 := [[start]]];
    var useful := Restrict(p1, Generating(p1, terms) * Reachable(p1, vars + {s0}, s0));
    EmptyFree(useful, Nullable(useful))
  }

  class CFGtoCNF {
    var variables: set<Symbol>
    var terminals: set<Symbol>
    var startSymbol: Symbol
    var productions: Productions
    var newProductions: Productions
    var newVariables: set<Symbol>
    const newStartSymbol: Symbol

    /** Every variable added by the converter is a variable. */
    ghost predicate Valid()
      reads this
    {
      newVariables <= variables
    }

    /** The field initialisation of FormaNormalChomsky.py:9-15 (the conversion
        that follows it is `Convert`). */
    constructor (variables: set<Symbol>, terminals: set<Symbol>, startSymbol: Symbol, productions: Productions)
      ensures Valid()
      ensures this.variables == variables && this.terminals == terminals
      ensures this.startSymbol == startSymbol && this.productions == productions
      ensures newProductions == map[] && newVariables == {} && newStartSymbol == "S0"
    {
      this.variables := variables;
      this.terminals := terminals;
      this.startSymbol := startSymbol;
      this.productions := productions;
      newProductions := map[];
      newVariables := {};
      newStartSymbol := "S0";
    }

    /** `S0 -> start` is added to both production maps and `S0` to both
        variable sets. */
    method AddNewStartSymbol()
      requires Valid()
      modifies this`newProductions, this`newVariables, this`variables, this`productions
      ensures Valid()
      ensures newProductions == old(newProductions)[newStartSymbol := [[startSymbol]]]
      ensures newVariables == old(newVariables) + {newStartSymbol}
      ensures variables == old(variables) + {newStartSymbol}
      ensures productions == old(productions)[newStartSymbol := [[startSymbol]]]
    {
      newProductions := newProductions[newStartSymbol := [[startSymbol]]];
      newVariables := newVariables + {newStartSymbol};
      variables := variables + {newStartSymbol};
      productions := productions[newStartSymbol := [[startSymbol]]];
    }

    /** One scan over all keys and rules: `g` together with every key that has
        a rule made only of symbols of `g` and of `t`. */
    method GenerationStep(g: set<Symbol>, t: set<Symbol>) returns (n: set<Symbol>)
      ensures n == GenStep(productions, t, g)
    {
      n := g;
      var todo := productions.Keys;
      while todo != {}
        invariant todo <= productions.Keys
        invariant n == g + set v | v in productions.Keys - todo && AnyRuleIn(productions[v], g + t)
        decreases todo
      {
        var v :| v in todo;
        var prods := productions[v];
        ghost var n0 := n;
        for i := 0 to |prods|
          invariant n == n0 + (if AnyRuleIn(prods[..i], g + t) then {v} else {})
        {
          assert forall r :: r in prods[..i + 1] <==> r in prods[..i] || r == prods[i];
          if AllIn(prods[i], g + t) {
            n := n + {v};
          }
        }
        assert prods[..|prods|] == prods;
        todo := todo - {v};
      }
    }

    /** The round-by-round fixpoint of FormaNormalChomsky.py:35-49 (with `t`
        the terminals: generating keys) and :67-81 (with `t` empty: nullable
        keys). Each round scans with the previous round's set; the loop stops
        at the first round that adds nothing. */
    method LeastFixpoint(t: set<Symbol>) returns (g: set<Symbol>)
      ensures g == Generating(productions, t)
    {
      g := GenerationStep({}, t);
      GenFromFirstStep(productions, t);
      while true
        invariant g <= productions.Keys
        invariant GenFrom(productions, t, g) == Generating(productions, t)
        decreases |productions.Keys - g|
      {
        var n := GenerationStep(g, t);
        if n == g {
          break;
        }
        GenStepShrinks(productions, t, g);
        g := n;
      }
    }

    /** One round of FormaNormalChomsky.py:53-58: `r` together with every
        variable that occurs in a rule of a member of `r`. */
    method ReachStep(r: set<Symbol>) returns (n: set<Symbol>)
      ensures n == r + Succ(SymbolEdges(productions, variables), r)
    {
      ghost var e := SymbolEdges(productions, variables);
      n := r;
      var todo := r;
      while todo != {}
        invariant todo <= r
        invariant n == r + Succ(e, r - todo)
        decreases todo
      {
        var x :| x in todo;
        var prods := RulesOf(productions, x);
        ghost var n0 := n;
        for i := 0 to |prods|
          invariant n == n0 + RuleSymbols(prods[..i], variables)
        {
          ghost var n1 := n;
          var prod := prods[i];
          for j := 0 to |prod|
            invariant n == n1 + set y | y in prod[..j] && y in variables
          {
            assert forall y :: y in prod[..j + 1] <==> y in prod[..j] || y == prod[j];
            if prod[j] in variables {
              n := n + {prod[j]};
            }
          }
          assert prod[..|prod|] == prod;
          assert forall q :: q in prods[..i + 1] <==> q in prods[..i] || q == prod;
          assert RuleSymbols(prods[..i + 1], variables) == RuleSymbols(prods[..i], variables) + set y | y in prod && y in variables;
        }
        assert prods[..|prods|] == prods;
        assert r - (todo - {x}) == (r - todo) + {x};
        SuccInsert(e, r - todo, x);
        todo := todo - {x};
      }
      assert r - todo == r;
    }

    /** The reachable set of FormaNormalChomsky.py:51-61, from the new start
        symbol. */
    method ReachableSet() returns (r: set<Symbol>)
      ensures r == Reachable(productions, variables, newStartSymbol)
    {
      ghost var e := SymbolEdges(productions, variables);
      r := {newStartSymbol};
      while true
        invariant CloseFrom(e, r) == Reachable(productions, variables, newStartSymbol)
        decreases |Targets(e) - r|
      {
        var n := ReachStep(r);
        if n == r {
          break;
        }
        StepShrinks(e, r);
        r := n;
      }
    }

    /** Keeps exactly the entries of keys that are both generating and
        reachable. */
    method RemoveUselessProductions()
      modifies this`productions
      ensures productions.Keys <= variables + {newStartSymbol}
      ensures productions == Restrict(old(productions),
                Generating(old(productions), terminals) * Reachable(old(productions), variables, newStartSymbol))
    {
      var generating := LeastFixpoint(terminals);
      var reachable := ReachableSet();
      ReachableFacts(productions, variables, newStartSymbol);
      productions := map v | v in productions && v in generating && v in reachable :: productions[v];
    }

    /** Every key keeps its entry, rewritten to the non-empty rules obtained from
        its non-empty rules by dropping any choice of nullable occurrences. */
    method RemoveEmptyProductions()
      modifies this`productions
      ensures productions == EmptyFree(old(productions), Nullable(old(productions)))
      ensures productions.Keys == old(productions).Keys
      ensures forall v :: v in productions ==> [] !in productions[v]
    {
      var nullable := LeastFixpoint({});
      var p := productions;
      var out: Productions := map[];
      var todo := p.Keys;
      while todo != {}
        invariant todo <= p.Keys
        invariant out.Keys == p.Keys - todo
        invariant forall v :: v in out ==> out[v] == EpsFree(p[v], nullable)
        decreases todo
      {
        var v :| v in todo;
        var rules := ExpandAll(p[v], nullable);
        out := out[v := rules];
        todo := todo - {v};
      }
      assert out == EmptyFree(p, nullable);
      EmptyFreeFacts(p, nullable);
      productions := out;
    }

    /** Unit rules are replaced by the rules of the variables they reach through
        unit rules. `ok` is false, and the productions are left as they were,
        where the source raises KeyError: a key that is not a variable
        (`unit_productions[var]`, lines 103 and 121) or a reached variable
        without an entry (`self.productions[unit]`, line 122). Otherwise every
        key keeps its entry, rewritten by `Inlined`. */
    method RemoveUnitProductions() returns (ok: bool)
      modifies this`productions
      ensures ok <==> (old(productions).Keys <= variables &&
                forall v, x :: v in old(productions) && x in UnitSet(old(productions), variables, v) ==> x in old(productions))
      ensures !ok ==> productions == old(productions)
      ensures ok ==> productions.Keys == old(productions).Keys
      ensures ok ==> forall v :: v in old(productions) ==>
                Inlined(productions[v], old(productions), variables, v, UnitSet(old(productions), variables, v))
    {
      var p := productions;
      if !(p.Keys <= variables) {
        return false;
      }
      var direct := CollectUnits(p, variables, p.Keys);
      var units := CloseUnits(direct);
      assert forall v :: v in p ==> units[v] == UnitSet(p, variables, v);
      var out, bad;
      ok, out, bad := InlineAll(p, variables, units);
      if ok {
        productions := out;
      }
    }

    /** The first of `X1`, `X2`, ... that is neither a variable nor a new
        variable. */
    method GetNewVariable() returns (x: Symbol)
      ensures x !in variables && x !in newVariables
      ensures exists i :: 1 <= i && x == Name(i) &&
                forall j :: 1 <= j < i ==> Name(j) in variables || Name(j) in newVariables
    {
      var i := 1;
      ghost var k := FreeIndex(variables + newVariables);
      while Name(i) in variables || Name(i) in newVariables
        invariant 1 <= i <= k
        invariant forall j :: 1 <= j < i ==> Name(j) in variables || Name(j) in newVariables
        decreases k - i
      {
        i := i + 1;
      }
      x := Name(i);
    }

    /** The `while len(prod) > 2` loop of FormaNormalChomsky.py:131-136: the
        first two symbols are replaced by a new variable whose only rule is
        that pair, until two symbols remain. `chain` records the steps, and
        undoing them gives back the rule. */
    method BinarizeRule(prod: Rule, acc: Productions) returns (b: Rule, acc': Productions, ghost chain: seq<(Symbol, Rule)>, ghost made: set<Symbol>)
      requires acc.Keys <= variables
      modifies this`variables, this`newVariables
      ensures variables == old(variables) + made && newVariables == old(newVariables) + made
      ensures made !! old(variables)
      ensures acc'.Keys == acc.Keys + made
      ensures forall x :: x in acc ==> acc'[x] == acc[x]
      ensures forall x :: x in made ==> |acc'[x]| == 1 && |acc'[x][0]| == 2
      ensures forall j :: 0 <= j < |chain| ==> chain[j].0 in made && acc'[chain[j].0] == [chain[j].1]
      ensures |b| <= 2 && (|prod| <= 2 ==> b == prod) && (|prod| > 2 ==> |b| == 2)
      ensures Unchain(b, chain) == prod
    {
      b, acc', chain, made := prod, acc, [], {};
      while |b| > 2
        invariant variables == old(variables) + made && newVariables == old(newVariables) + made
        invariant made !! old(variables)
        invariant acc'.Keys == acc.Keys + made
        invariant forall x :: x in acc ==> acc'[x] == acc[x]
        invariant forall x :: x in made ==> |acc'[x]| == 1 && |acc'[x][0]| == 2
        invariant forall j :: 0 <= j < |chain| ==> chain[j].0 in made && acc'[chain[j].0] == [chain[j].1]
        invariant (|prod| <= 2 ==> b == prod) && (|prod| > 2 ==> |b| >= 2)
        invariant Unchain(b, chain) == prod
        decreases |b|
      {
        var x := GetNewVariable();
        newVariables := newVariables + {x};
        variables := variables + {x};
        var pair := [b[0], b[1]];
        acc' := acc'[x := [pair]];
        var b' := [x] + b[2..];
        assert pair + b'[1..] == b;
        chain := chain + [(x, pair)];
        made := made + {x};
        b := b';
      }
    }

    /** The rules of key `v`, each binarised in order, into a fresh copy of
        `acc` where the entry of `v` starts empty. */
    method BinarizeKey(v: Symbol, acc: Productions) returns (acc': Productions, ghost made: set<Symbol>)
      requires v in productions && productions.Keys <= variables && acc.Keys <= variables
      modifies this`variables, this`newVariables
      ensures variables == old(variables) + made && newVariables == old(newVariables) + made
      ensures made !! old(variables)
      ensures acc'.Keys == acc.Keys + {v} + made
      ensures forall x :: x in acc && x != v ==> acc'[x] == acc[x]
      ensures forall x :: x in made ==> |acc'[x]| == 1 && |acc'[x][0]| == 2
      ensures KeyBinarised(acc', productions, v)
    {
      var rules := productions[v];
      acc' := acc[v := []];
      made := {};
      for i := 0 to |rules|
        invariant variables == old(variables) + made && newVariables == old(newVariables) + made
        invariant made !! old(variables)
        invariant acc'.Keys == acc.Keys + {v} + made
        invariant forall x :: x in acc && x != v ==> acc'[x] == acc[x]
        invariant forall x :: x in made ==> |acc'[x]| == 1 && |acc'[x][0]| == 2
        invariant |acc'[v]| == i
        invariant forall k :: 0 <= k < i ==> RuleBinarised(acc', productions, acc'[v][k], rules[k])
      {
        ghost var before := acc';
        var b;
        ghost var chain, more;
        b, acc', chain, more := BinarizeRule(rules[i], acc');
        acc' := acc'[v := acc'[v] + [b]];
        made := made + more;
        assert KeepsNew(before, acc', productions);
        forall k | 0 <= k < i ensures RuleBinarised(acc', productions, acc'[v][k], rules[k]) {
          RuleBinarisedKept(before, acc', productions, before[v][k], rules[k]);
        }
        assert ChainIn(acc', productions, chain);
      }
    }

    /** Every rule longer than two symbols is split into a chain of new
        variables, each with one rule of two symbols; the new variables join
        both variable sets. */
    method ConvertToBinary()
      requires Valid() && productions.Keys <= variables
      modifies this`variables, this`newVariables, this`productions
      ensures Valid()
      ensures old(productions).Keys <= productions.Keys
      ensures variables == old(variables) + (productions.Keys - old(productions).Keys)
      ensures newVariables == old(newVariables) + (productions.Keys - old(productions).Keys)
      ensures (productions.Keys - old(productions).Keys) !! old(variables)
      ensures Binarised(productions, old(productions))
    {
      var p := productions;
      var out: Productions := map[];
      ghost var made: set<Symbol> := {};
      var todo := p.Keys;
      while todo != {}
        invariant todo <= p.Keys && productions == p
        invariant variables == old(variables) + made && newVariables == old(newVariables) + made
        invariant made !! old(variables)
        invariant out.Keys == (p.Keys - todo) + made
        invariant forall x :: x in made ==> |out[x]| == 1 && |out[x][0]| == 2
        invariant forall v :: v in p && v !in todo ==> KeyBinarised(out, p, v)
        decreases todo
      {
        var v :| v in todo;
        ghost var before := out;
        ghost var more;
        out, more := BinarizeKey(v, out);
        forall w | w in p && w !in todo ensures KeyBinarised(out, p, w) {
          KeyBinarisedKept(before, out, p, w);
        }
        made := made + more;
        todo := todo - {v};
      }
      assert out.Keys - p.Keys == made;
      productions := out;
      assert productions.Keys <= variables;
    }

    /** The whole conversion. It fails exactly when, in the productions that
        reach the unit pass, some unit set holds a variable without an entry.
        When it does not fail, every rule has one or two symbols. The variables
        only grow, by `S0` and the fresh names. */
    method ConvertToCnf() returns (ok: bool)
      requires Valid()
      modifies this`newProductions, this`newVariables, this`variables, this`productions
      ensures Valid()
      ensures newStartSymbol in variables && newStartSymbol in newVariables
      ensures old(variables) + {newStartSymbol} <= variables
      ensures ok <==> UnitSetsKeyed(BeforeUnits(old(productions), old(variables), terminals, startSymbol, newStartSymbol),
                                    old(variables) + {newStartSymbol})
      ensures ok ==> forall v, b :: v in productions && b in productions[v] ==> 1 <= |b| <= 2
    {
      AddNewStartSymbol();
      RemoveUselessProductions();
      assert productions.Keys <= variables;
      ghost var useful := productions;
      RemoveEmptyProductions();
      ghost var q := productions;
      assert q == BeforeUnits(old(productions), old(variables), terminals, startSymbol, newStartSymbol);
      assert Valid() && newStartSymbol in variables && newStartSymbol in newVariables;
      assert variables == old(variables) + {newStartSymbol};
      ok := RemoveUnitProductions();
      assert ok <==> UnitSetsKeyed(q, variables);
      if !ok {
        return;
      }
      InlinedNoEmpty(productions, q, variables);
      ghost var u := productions;
      assert u.Keys == q.Keys == useful.Keys;
      ConvertToBinary();
      BinarisedShape(productions, u);
    }
  }

  /** `CFGtoCNF(variables, terminals, start_symbol, productions)`: the object
      is built and converted; `ok` is false where the conversion raises
      KeyError. */
  method Convert(variables: set<Symbol>, terminals: set<Symbol>, startSymbol: Symbol, productions: Productions)
    returns (c: CFGtoCNF, ok: bool)
    ensures fresh(c) && c.Valid()
    ensures c.terminals == terminals && c.startSymbol == startSymbol
    ensures c.newStartSymbol == "S0" && "S0" in c.variables && "S0" in c.newVariables
    ensures variables + {"S0"} <= c.variables
    ensures ok <==> UnitSetsKeyed(BeforeUnits(productions, variables, terminals, startSymbol, "S0"), variables + {"S0"})
    ensures ok ==> forall v, b :: v in c.productions && b in c.productions[v] ==> 1 <= |b| <= 2
  {
    c := new CFGtoCNF(variables, terminals, startSymbol, productions);
    ok := c.ConvertToCnf();
  }
}
